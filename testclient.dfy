/** The WebSocket chat client `testclient.py`: the opening handshake over
    `a2lib/httplib.py`, the reaction to each received frame, the producer
    and consumer loops, and `main` with its `finally` that always sends an
    empty CLOSE and closes the socket. The producer and consumer threads of
    the role `both` run one after the other here. Frames are values; the
    frame parser, `Close.parse` and SHA-1 are parameters. */
module TestClient {
  import opened Base
  import opened Text
  import opened Fields
  import opened Http
  import HttpParse
  import Utf8
  import opened WebSocket
  import opened Waker

  /** The `role` argument (argparse allows only these three). */
  datatype Role = Producer | Consumer | Both

  function RoleName(r: Role): string {
    match r
    case Producer => "producer"
    case Consumer => "consumer"
    case Both => "both"
  }

  /** Python's `str(n)` for an `int`. */
  function IntText(n: int): (s: string)
    ensures s != []
  {
    if n < 0 then "-" + NatToString(-n) else NatToString(n)
  }

  const KeyName: string := "Sec-Websocket-Key"
  const AcceptName: string := "Sec-WebSocket-Accept"

  /** The header dict of `establish_handshake`, in its insertion order. */
  function HandshakeFields(host: string, port: int, key: string): Dict {
    var fields: seq<Field> :=
      [("Host", host + ":" + IntText(port)),
       ("Upgrade", "websocket"),
       ("Connection", "Upgrade"),
       (KeyName, key),
       ("Sec-Websocket-Protocol", "chat"),
       ("Sec-Websocket-Version", "13")];
    // The six names have six different lengths.
    assert |fields[0].0| == 4 && |fields[1].0| == 7 && |fields[2].0| == 10;
    assert |fields[3].0| == 17 && |fields[4].0| == 22 && |fields[5].0| == 21;
    fields
  }

  /** `establish_handshake`: the request `GET /role` with the six fields and
      no body, and the key as the bytes `b64encode` returned. The key field
      carries those bytes as text, 24 base64 characters. */
  function EstablishHandshake(host: string, port: int, role: Role, nonce: Nonce): (r: (Message, Bytes))
    ensures r.0.start == RequestLine("GET", "/" + RoleName(role)) && r.0.body == NoBody
    ensures !Has(r.0.headers, ContentLength)
    ensures Get(r.0.headers, KeyName) == Some(KeyText(nonce)) && |KeyText(nonce)| == 24
    ensures Utf8.Decode(r.1) == Some(KeyText(nonce))
    ensures Get(r.0.headers, "Sec-Websocket-Version") == Some("13")
    ensures Get(r.0.headers, "Sec-Websocket-Protocol") == Some("chat")
  {
    var key := KeyText(nonce);
    var fields := HandshakeFields(host, port, key);
    IndexOfFirst(fields, 3, KeyName);
    IndexOfFirst(fields, 4, "Sec-Websocket-Protocol");
    IndexOfFirst(fields, 5, "Sec-Websocket-Version");
    assert forall k :: 0 <= k < |fields| ==> fields[k].0 != ContentLength;
    Utf8.DecodeEncode(key);
    (Message(RequestLine("GET", "/" + RoleName(role)), WithBody(fields, NoBody), NoBody),
     Utf8.Encode(key))
  }

  /** The exceptions of the client, as the `Error: ...` line `main` prints. */
  datatype ClientError =
    | HttpFailed(e: HttpParse.ParseError)  // `get_http_response` raised
    | InvalidHandshake                     // status other than 101
    | InvalidAccept                        // wrong `Sec-WebSocket-Accept`

  /** `validate_handshake`: the status must be 101 (Switching Protocols) and
      the accept field, read through the `defaultdict` so that a missing
      field reads as "", must equal the value computed from the key. */
  function ValidateHandshake(response: Message, key: Bytes, sha1: Bytes -> Digest): (r: Result<(), ClientError>)
    requires response.start.StatusLine?
    ensures response.start.status != 101 ==> r == Err(InvalidHandshake)
    ensures response.start.status == 101 ==>
      (r.Ok? <==> Get(response.headers, AcceptName) == Some(AcceptFor(key, sha1)))
    ensures !Has(response.headers, AcceptName) ==> r.Err?
    ensures r.Err? ==> r.error == InvalidHandshake || r.error == InvalidAccept
  {
    if response.start.status != 101 then Err(InvalidHandshake)
    else if GetOrEmpty(response.headers, AcceptName) != AcceptFor(key, sha1) then Err(InvalidAccept)
    else Ok(())
  }

  /** `perform_handshake`: the request bytes sent, and whether the response
      read from `chunks` parses and validates. */
  datatype Handshake = Handshake(request: Bytes, outcome: Result<(), ClientError>)

  function PerformHandshake(host: string, port: int, role: Role, nonce: Nonce,
                            chunks: seq<Bytes>, sha1: Bytes -> Digest): (h: Handshake)
    ensures h.request == Serialize(EstablishHandshake(host, port, role, nonce).0)
    ensures h.outcome.Ok? <==>
      var resp := HttpParse.ReadResponse(chunks);
      resp.Ok? && resp.value.start.status == 101 &&
      Get(resp.value.headers, AcceptName) ==
        Some(AcceptFor(Utf8.Encode(KeyText(nonce)), sha1))
  {
    var (request, key) := EstablishHandshake(host, port, role, nonce);
    var outcome :=
      match HttpParse.ReadResponse(chunks)
      case Err(e) => Err(HttpFailed(e))
      case Ok(response) => ValidateHandshake(response, key, sha1);
    Handshake(Serialize(request), outcome)
  }

  /** How one call of `pong_response` (or the exception inside it) ends. */
  datatype Reaction =
    | Continue        // returned False
    | Stop            // returned True after echoing a CLOSE
    | CloseUnparsed   // `Close.parse` raised
    | SendFailed      // `sendall` raised

  /** The reaction to a non-TEXT frame on a socket that is open or not: the
      frames sent, and how it ends. */
  function React(f: Frame, open: bool, closeEcho: Bytes -> Option<Bytes>): (r: (seq<Frame>, Reaction))
    ensures f.opcode == Ping && open ==> r == ([Frame(Pong, f.data)], Continue)
    ensures f.opcode == Close && open && closeEcho(f.data).Some? ==>
      r == ([Frame(Close, closeEcho(f.data).value)], Stop)
    ensures f.opcode !in {Ping, Close} ==> r == ([], Continue)
    ensures r.1 == Stop <==> f.opcode == Close && closeEcho(f.data).Some? && open
    ensures r.1 != Continue && r.1 != Stop ==> r.0 == []
    ensures |r.0| <= 1
  {
    match f.opcode
    case Ping => if open then ([Frame(Pong, f.data)], Continue) else ([], SendFailed)
    case Close =>
      (match closeEcho(f.data)
       case None => ([], CloseUnparsed)
       case Some(p) => if open then ([Frame(Close, p)], Stop) else ([], SendFailed))
    case _ => ([], Continue)
  }

  /** `pong_response`: PING gets a PONG with the same payload; CLOSE gets a
      CLOSE carrying the peer's close re-serialised, then the main thread is
      woken and the result is True; anything else is ignored. */
  method PongResponse(conn: Connection, f: Frame, closeEcho: Bytes -> Option<Bytes>, waker: MainThreadWaker)
    returns (reaction: Reaction)
    modifies conn, waker
    ensures var (frames, end) := React(f, old(conn.closes) == 0, closeEcho);
      conn.sent == old(conn.sent) + frames && reaction == end
    ensures conn.inbox == old(conn.inbox) && conn.closes == old(conn.closes)
    ensures waker.registered == old(waker.registered)
    ensures waker.woken == (old(waker.woken) || (reaction == Stop && old(waker.registered)))
  {
    if f.opcode == Ping {
      var ok := conn.Send(Frame(Pong, f.data));
      reaction := if ok then Continue else SendFailed;
    } else if f.opcode == Close {
      match closeEcho(f.data)
      case None =>
        reaction := CloseUnparsed;
      case Some(p) =>
        var ok := conn.Send(Frame(Close, p));
        if ok {
          var d := waker.WakeMainThread();
          reaction := Stop;
        } else {
          reaction := SendFailed;
        }
    } else {
      reaction := Continue;
    }
  }

  /** How the consumer loop ends. */
  datatype ConsumerEnd =
    | PeerClosed      // `pong_response` returned True
    | FrameUnparsed   // `receive_frame` raised "Failed to parse frame"
    | TextUnreadable  // the TEXT payload is not UTF-8
    | ReactFailed(r: Reaction)

  /** What a run of the consumer does: frames sent, messages shown, how it
      ends (the main thread is woken when it ends with `PeerClosed`). */
  datatype ConsumerRun = ConsumerRun(sent: seq<Frame>, shown: seq<string>, end: ConsumerEnd)

  /** The consumer over the chunks still to be received; once they run out
      `recv` returns `b''`, which the frame parser cannot parse. */
  function Consume(inbox: seq<Bytes>, parse: Bytes -> Option<Frame>,
                   closeEcho: Bytes -> Option<Bytes>, open: bool): (r: ConsumerRun)
    decreases |inbox|
  {
    if inbox == [] then ConsumerRun([], [], FrameUnparsed)
    else
      match parse(inbox[0])
      case None => ConsumerRun([], [], FrameUnparsed)
      case Some(f) =>
        if f.opcode == Text then
          match Utf8.Decode(f.data)
          case None => ConsumerRun([], [], TextUnreadable)
          case Some(s) =>
            var rest := Consume(inbox[1..], parse, closeEcho, open);
            rest.(shown := [s] + rest.shown)
        else
          var (frames, reaction) := React(f, open, closeEcho);
          if reaction == Continue then
            var rest := Consume(inbox[1..], parse, closeEcho, open);
            rest.(sent := frames + rest.sent)
          else if reaction == Stop then ConsumerRun(frames, [], PeerClosed)
          else ConsumerRun(frames, [], ReactFailed(reaction))
  }

  /** PONGs and, last, at most one CLOSE: the echo that ends a run with
      `PeerClosed`, which needs an open socket. */
  predicate PongsThenClose(sent: seq<Frame>, end: ConsumerEnd, open: bool) {
    && (forall k :: 0 <= k < |sent| - 1 ==> sent[k].opcode == Pong)
    && (sent != [] && sent[|sent| - 1].opcode == Close <==> end == PeerClosed)
    && (end == PeerClosed ==> open)
  }

  /** A PONG in front keeps the shape. */
  lemma PongInFront(p: Frame, sent: seq<Frame>, end: ConsumerEnd, open: bool)
    requires p.opcode == Pong && PongsThenClose(sent, end, open)
    ensures PongsThenClose([p] + sent, end, open)
  {
    var all := [p] + sent;
    forall k | 0 <= k < |all| - 1
      ensures all[k].opcode == Pong
    {
      if k > 0 {
        assert all[k] == sent[k - 1];
      }
    }
  }

  /** The consumer sends PONGs and, last, at most one CLOSE, the echo that
      ends the run with `PeerClosed`, which needs an open socket. */
  lemma {:induction false} ConsumeSends(inbox: seq<Bytes>, parse: Bytes -> Option<Frame>,
                                        closeEcho: Bytes -> Option<Bytes>, open: bool)
    ensures var r := Consume(inbox, parse, closeEcho, open);
      PongsThenClose(r.sent, r.end, open)
    decreases |inbox|
  {
    if inbox != [] && parse(inbox[0]).Some? {
      var f := parse(inbox[0]).value;
      var rest := Consume(inbox[1..], parse, closeEcho, open);
      ConsumeSends(inbox[1..], parse, closeEcho, open);
      if f.opcode == Text {
        if Utf8.Decode(f.data).Some? {
          ConsumeText(inbox, parse, closeEcho, open, f, Utf8.Decode(f.data).value);
        }
      } else if React(f, open, closeEcho).1 == Continue {
        ConsumeOther(inbox, parse, closeEcho, open, f);
        var frames := React(f, open, closeEcho).0;
        if frames != [] {
          assert frames == [Frame(Pong, f.data)];
          PongInFront(Frame(Pong, f.data), rest.sent, rest.end, open);
        } else {
          assert frames + rest.sent == rest.sent;
        }
      }
    }
  }

  /** `consumer`: receive a frame, show TEXT, let `pong_response` handle the
      rest, and stop at its first True or at the first exception. */
  method RunConsumer(conn: Connection, parse: Bytes -> Option<Frame>,
                     closeEcho: Bytes -> Option<Bytes>, waker: MainThreadWaker)
    returns (shown: seq<string>, end: ConsumerEnd)
    requires parse([]) == None
    modifies conn, waker
    ensures var r := Consume(old(conn.inbox), parse, closeEcho, old(conn.closes) == 0);
      conn.sent == old(conn.sent) + r.sent && shown == r.shown && end == r.end
    ensures conn.closes == old(conn.closes)
    ensures waker.registered == old(waker.registered)
    ensures waker.woken == (old(waker.woken) || (end == PeerClosed && old(waker.registered)))
  {
    ghost var open := conn.closes == 0;
    ghost var whole := Consume(conn.inbox, parse, closeEcho, open);
    ghost var sent: seq<Frame> := [];
    shown := [];
    while true
      invariant conn.closes == old(conn.closes) && open == (conn.closes == 0)
      invariant waker.registered == old(waker.registered) && waker.woken == old(waker.woken)
      invariant conn.sent == old(conn.sent) + sent
      invariant Tracks(whole, sent, shown, Consume(conn.inbox, parse, closeEcho, open))
      decreases |conn.inbox|
    {
      var stop;
      shown, sent, stop := ReceiveOne(conn, parse, closeEcho, waker, whole, old(conn.sent), sent, shown);
      if stop.Some? {
        end := stop.value;
        break;
      }
    }
  }

  /** The run so far (`sent`, `shown`) followed by the rest of the run is the
      whole run. */
  predicate Tracks(whole: ConsumerRun, sent: seq<Frame>, shown: seq<string>, rest: ConsumerRun) {
    whole.sent == sent + rest.sent && whole.shown == shown + rest.shown && whole.end == rest.end
  }

  /** One turn of the consumer loop: it extends what was shown and sent, and
      says how the loop ends when it does. */
  method ReceiveOne(conn: Connection, parse: Bytes -> Option<Frame>,
                    closeEcho: Bytes -> Option<Bytes>, waker: MainThreadWaker,
                    ghost whole: ConsumerRun, ghost before: seq<Frame>, ghost sent: seq<Frame>,
                    shown: seq<string>)
    returns (shown': seq<string>, ghost sent': seq<Frame>, stop: Option<ConsumerEnd>)
    requires parse([]) == None
    requires conn.sent == before + sent
    requires Tracks(whole, sent, shown, Consume(conn.inbox, parse, closeEcho, conn.closes == 0))
    modifies conn, waker
    ensures conn.closes == old(conn.closes) && waker.registered == old(waker.registered)
    ensures conn.sent == before + sent'
    ensures waker.woken == (old(waker.woken) || (stop == Some(PeerClosed) && old(waker.registered)))
    ensures stop.None? ==>
      |conn.inbox| < |old(conn.inbox)| &&
      Tracks(whole, sent', shown', Consume(conn.inbox, parse, closeEcho, conn.closes == 0))
    ensures stop.Some? ==>
      whole.sent == sent' && whole.shown == shown' && whole.end == stop.value
  {
    ghost var inbox := conn.inbox;
    ghost var open := conn.closes == 0;
    shown', sent', stop := shown, sent, None;
    var data := conn.Recv();
    match parse(data)
    case None =>
      stop := Some(FrameUnparsed);
    case Some(f) =>
      if f.opcode == Text {
        match Utf8.Decode(f.data)
        case None =>
          stop := Some(TextUnreadable);
        case Some(s) =>
          ConsumeText(inbox, parse, closeEcho, open, f, s);
          shown' := shown + [s];
      } else {
        sent', stop := ReceiveOther(conn, parse, closeEcho, waker, f, inbox, whole, before, sent, shown);
      }
  }

  /** The rest of a turn of the consumer loop for a frame that is not TEXT:
      `pong_response` and its outcome. */
  method ReceiveOther(conn: Connection, parse: Bytes -> Option<Frame>,
                      closeEcho: Bytes -> Option<Bytes>, waker: MainThreadWaker, f: Frame,
                      ghost inbox: seq<Bytes>, ghost whole: ConsumerRun, ghost before: seq<Frame>,
                      ghost sent: seq<Frame>, ghost shown: seq<string>)
    returns (ghost sent': seq<Frame>, stop: Option<ConsumerEnd>)
    requires inbox != [] && parse(inbox[0]) == Some(f) && f.opcode != Text && conn.inbox == inbox[1..]
    requires conn.sent == before + sent
    requires Tracks(whole, sent, shown, Consume(inbox, parse, closeEcho, conn.closes == 0))
    modifies conn, waker
    ensures conn.closes == old(conn.closes) && waker.registered == old(waker.registered)
    ensures conn.sent == before + sent' && conn.inbox == old(conn.inbox)
    ensures waker.woken == (old(waker.woken) || (stop == Some(PeerClosed) && old(waker.registered)))
    ensures stop.None? ==>
      Tracks(whole, sent', shown, Consume(conn.inbox, parse, closeEcho, conn.closes == 0))
    ensures stop.Some? ==>
      whole.sent == sent' && whole.shown == shown && whole.end == stop.value
  {
    ghost var open := conn.closes == 0;
    var reaction := PongResponse(conn, f, closeEcho, waker);
    sent' := sent + React(f, open, closeEcho).0;
    stop := None;
    if reaction == Stop {
      stop := Some(PeerClosed);
    } else if reaction != Continue {
      stop := Some(ReactFailed(reaction));
    } else {
      ConsumeOther(inbox, parse, closeEcho, open, f);
    }
  }

  /** One TEXT frame: it is shown and the run goes on with the next chunk. */
  lemma ConsumeText(inbox: seq<Bytes>, parse: Bytes -> Option<Frame>, closeEcho: Bytes -> Option<Bytes>,
                    open: bool, f: Frame, s: string)
    requires inbox != [] && parse(inbox[0]) == Some(f) && f.opcode == Text
    requires Utf8.Decode(f.data) == Some(s)
    ensures var r, rest := Consume(inbox, parse, closeEcho, open), Consume(inbox[1..], parse, closeEcho, open);
      r.sent == rest.sent && r.shown == [s] + rest.shown && r.end == rest.end
  {
  }

  /** One PING, PONG or other frame the consumer goes on after. */
  lemma ConsumeOther(inbox: seq<Bytes>, parse: Bytes -> Option<Frame>, closeEcho: Bytes -> Option<Bytes>,
                     open: bool, f: Frame)
    requires inbox != [] && parse(inbox[0]) == Some(f) && f.opcode != Text
    requires React(f, open, closeEcho).1 == Continue
    ensures var r, rest := Consume(inbox, parse, closeEcho, open), Consume(inbox[1..], parse, closeEcho, open);
      r.sent == React(f, open, closeEcho).0 + rest.sent && r.shown == rest.shown && r.end == rest.end
  {
  }

  /** The frames the producer sends for the lines typed, on an open socket. */
  function TextFrames(lines: seq<string>): (fs: seq<Frame>)
    ensures |fs| == |lines|
    ensures forall k :: 0 <= k < |lines| ==> fs[k] == Frame(Text, Utf8.Encode(lines[k]))
  {
    if lines == [] then [] else [Frame(Text, Utf8.Encode(lines[0]))] + TextFrames(lines[1..])
  }

  lemma TextFramesSnoc(lines: seq<string>, i: nat)
    requires i < |lines|
    ensures TextFrames(lines[..i + 1]) == TextFrames(lines[..i]) + [Frame(Text, Utf8.Encode(lines[i]))]
  {
    var a, b := TextFrames(lines[..i + 1]), TextFrames(lines[..i]) + [Frame(Text, Utf8.Encode(lines[i]))];
    assert |a| == |b|;
    forall k | 0 <= k < |a|
      ensures a[k] == b[k]
    {
      assert lines[..i + 1][k] == if k < i then lines[..i][k] else lines[i];
    }
  }

  /** `producer`: each line read is sent as one TEXT frame of its UTF-8
      bytes; end of input (`EOFError`) or a failed send ends the loop. */
  method RunProducer(conn: Connection, lines: seq<string>)
    modifies conn
    ensures conn.sent == old(conn.sent) + (if old(conn.closes) == 0 then TextFrames(lines) else [])
    ensures conn.inbox == old(conn.inbox) && conn.closes == old(conn.closes)
  {
    var i := 0;
    while i < |lines|
      invariant 0 <= i <= |lines|
      invariant conn.inbox == old(conn.inbox) && conn.closes == old(conn.closes)
      invariant conn.sent == old(conn.sent) + (if conn.closes == 0 then TextFrames(lines[..i]) else [])
    {
      var ok := conn.Send(Frame(Text, Utf8.Encode(lines[i])));
      if !ok {
        break;
      }
      TextFramesSnoc(lines, i);
      i := i + 1;
    }
    if conn.closes == 0 {
      assert lines[..i] == lines;
    }
  }

  /** How `main` ends: the message it prints before the `finally`. */
  datatype MainEnd =
    | Failed(e: ClientError)   // `Error: ...`
    | Woken                    // "Main thread woken, closing connection."
    | Done                     // the threads ended on their own
    | Hangs                    // `get_http_response` never returns: no `finally`

  /** The read errors that stand for a `recv` loop of `get_http_response`
      that never ends: once the peer has closed, `recv` keeps returning no
      bytes and the loop keeps waiting, so `main` never reaches its
      `finally`. */
  predicate NeverReturns(outcome: Result<(), ClientError>) {
    outcome.Err? && outcome.error.HttpFailed? &&
    (outcome.error.e == HttpParse.HeadNeverEnds || outcome.error.e == HttpParse.BodyNeverEnds)
  }

  /** Everything a run of the client does: the handshake bytes, the frames
      sent, the messages shown, how `main` ended, how often the socket was
      closed. */
  datatype ClientRun = ClientRun(request: Bytes, sent: seq<Frame>, shown: seq<string>, end: MainEnd, closes: nat)

  /** The empty CLOSE of the `finally`. */
  const EmptyClose: Frame := Frame(Close, [])

  /** What the role's threads do before the `finally`: the frames sent, the
      messages shown, and whether the consumer woke the main thread. The
      producer runs first (see the notes on threads). */
  datatype ThreadsRun = ThreadsRun(sent: seq<Frame>, shown: seq<string>, woken: bool)

  function Threads(role: Role, frameChunks: seq<Bytes>, lines: seq<string>,
                   parse: Bytes -> Option<Frame>, closeEcho: Bytes -> Option<Bytes>): (t: ThreadsRun)
  {
    var produced := if role == Consumer then [] else TextFrames(lines);
    if role == Producer then ThreadsRun(produced, [], false)
    else
      var c := Consume(frameChunks, parse, closeEcho, true);
      ThreadsRun(produced + c.sent, c.shown, c.end == PeerClosed)
  }

  /** The run of `main` for one role after a handshake with the given
      outcome: what the peer sends after it, and the lines typed. A
      handshake read that never returns sends nothing more and never closes
      the socket; every other run ends in the `finally`. */
  function ClientAfter(request: Bytes, outcome: Result<(), ClientError>, role: Role,
                       frameChunks: seq<Bytes>, lines: seq<string>, parse: Bytes -> Option<Frame>,
                       closeEcho: Bytes -> Option<Bytes>): (run: ClientRun)
    ensures run.end == Hangs <==> NeverReturns(outcome)
    ensures run.end == Hangs ==> run.sent == [] && run.shown == [] && run.closes == 0
    ensures run.end != Hangs ==>
      run.sent != [] && run.sent[|run.sent| - 1] == EmptyClose && run.closes == 1
    ensures outcome.Err? && !NeverReturns(outcome) ==>
      run.sent == [EmptyClose] && run.end == Failed(outcome.error)
  {
    if NeverReturns(outcome) then ClientRun(request, [], [], Hangs, 0)
    else if outcome.Err? then ClientRun(request, [EmptyClose], [], Failed(outcome.error), 1)
    else
      var t := Threads(role, frameChunks, lines, parse, closeEcho);
      ClientRun(request, t.sent + [EmptyClose], t.shown, if t.woken then Woken else Done, 1)
  }

  /** The whole run of `main`, handshake included. */
  function Client(host: string, port: int, role: Role, nonce: Nonce, handshakeChunks: seq<Bytes>,
                  frameChunks: seq<Bytes>, lines: seq<string>, parse: Bytes -> Option<Frame>,
                  closeEcho: Bytes -> Option<Bytes>, sha1: Bytes -> Digest): ClientRun
  {
    var hs := PerformHandshake(host, port, role, nonce, handshakeChunks, sha1);
    ClientAfter(hs.request, hs.outcome, role, frameChunks, lines, parse, closeEcho)
  }

  /** A server that never completes its response head (it closes, or its
      chunks never hold a blank line) leaves `main` waiting in
      `get_http_response`: after the request nothing is sent and the socket
      is never closed. */
  lemma HeadlessServerHangs(host: string, port: int, role: Role, nonce: Nonce, handshakeChunks: seq<Bytes>,
                            frameChunks: seq<Bytes>, lines: seq<string>, parse: Bytes -> Option<Frame>,
                            closeEcho: Bytes -> Option<Bytes>, sha1: Bytes -> Digest)
    requires forall j :: 0 <= j < |handshakeChunks| ==> !HttpParse.HasTerminator(handshakeChunks[j])
    ensures var run := Client(host, port, role, nonce, handshakeChunks, frameChunks, lines, parse, closeEcho, sha1);
      run.end == Hangs && run.sent == [] && run.closes == 0
  {
    HttpParse.NoHeadChunk(handshakeChunks);
  }

  /** `main`: register the waker, connect, shake hands, run the role, and
      unless the handshake read never returns, send one empty CLOSE (its
      errors swallowed) and close the socket once. */
  method RunClient(host: string, port: int, role: Role, nonce: Nonce, handshakeChunks: seq<Bytes>,
              frameChunks: seq<Bytes>, lines: seq<string>, parse: Bytes -> Option<Frame>,
              closeEcho: Bytes -> Option<Bytes>, sha1: Bytes -> Digest)
    returns (run: ClientRun)
    requires parse([]) == None
    ensures run == Client(host, port, role, nonce, handshakeChunks, frameChunks, lines, parse, closeEcho, sha1)
    ensures run.end != Hangs ==>
      run.sent != [] && run.sent[|run.sent| - 1] == EmptyClose && run.closes == 1
    ensures run.end == Hangs ==> run.sent == [] && run.closes == 0
  {
    var hs := PerformHandshake(host, port, role, nonce, handshakeChunks, sha1);
    run := RunRole(hs.request, hs.outcome, role, frameChunks, lines, parse, closeEcho);
  }

  /** The part of `main` after the handshake, with the waker registered and
      the `finally`. (The handshake does not touch the waker, so registering
      it here rather than first changes nothing.) */
  method RunRole(request: Bytes, outcome: Result<(), ClientError>, role: Role,
                 frameChunks: seq<Bytes>, lines: seq<string>, parse: Bytes -> Option<Frame>,
                 closeEcho: Bytes -> Option<Bytes>)
    returns (run: ClientRun)
    requires parse([]) == None
    ensures run == ClientAfter(request, outcome, role, frameChunks, lines, parse, closeEcho)
  {
    if NeverReturns(outcome) {
      // `get_http_response` is still waiting: nothing after it runs
      return ClientRun(request, [], [], Hangs, 0);
    }
    var waker := new MainThreadWaker();
    waker.Register();
    var conn := new Connection(frameChunks);
    var shown: seq<string> := [];
    var end: MainEnd := Done;
    if outcome.Err? {
      end := Failed(outcome.error);
    } else {
      var woken;
      shown, woken := RunThreads(conn, role, lines, parse, closeEcho, waker);
      if woken {
        end := Woken;
      }
    }
    var _ := conn.Send(EmptyClose);
    conn.Close();
    run := ClientRun(request, conn.sent, shown, end, conn.closes);
  }

  /** The role's threads on a fresh connection with the waker registered:
      `woken` is whether the main thread was woken. */
  method RunThreads(conn: Connection, role: Role, lines: seq<string>,
                    parse: Bytes -> Option<Frame>, closeEcho: Bytes -> Option<Bytes>, waker: MainThreadWaker)
    returns (shown: seq<string>, woken: bool)
    requires parse([]) == None
    requires conn.sent == [] && conn.closes == 0
    modifies conn, waker
    ensures var t := Threads(role, old(conn.inbox), lines, parse, closeEcho);
      conn.sent == t.sent && shown == t.shown && woken == t.woken
    ensures conn.closes == 0
  {
    ghost var produced := if role == Consumer then [] else TextFrames(lines);
    shown, woken := [], false;
    if role != Consumer {
      RunProducer(conn, lines);
    }
    assert conn.sent == produced && conn.inbox == old(conn.inbox) && conn.closes == 0;
    if role != Producer {
      var end;
      shown, end := RunConsumer(conn, parse, closeEcho, waker);
      woken := end == PeerClosed;
    }
  }

  /** After the peer closes, the client has sent two CLOSE frames: the echo
      of the peer's close and the empty one of the `finally`. */
  lemma PeerCloseSendsTwoCloses(request: Bytes, chunk: Bytes, more: seq<Bytes>,
                                parse: Bytes -> Option<Frame>, closeEcho: Bytes -> Option<Bytes>,
                                payload: Bytes)
    requires parse(chunk) == Some(Frame(Close, payload)) && closeEcho(payload).Some?
    ensures var run := ClientAfter(request, Ok(()), Consumer, [chunk] + more, [], parse, closeEcho);
      run.sent == [Frame(Close, closeEcho(payload).value), EmptyClose] && run.end == Woken
  {
    assert ([chunk] + more)[0] == chunk;
  }

  /** Whatever happens, the last frame sent is the empty CLOSE and no CLOSE
      comes before the one just ahead of it: the client sends at most two. */
  lemma AtMostTwoCloses(request: Bytes, outcome: Result<(), ClientError>, role: Role,
                        frameChunks: seq<Bytes>, lines: seq<string>, parse: Bytes -> Option<Frame>,
                        closeEcho: Bytes -> Option<Bytes>)
    ensures var run := ClientAfter(request, outcome, role, frameChunks, lines, parse, closeEcho);
      forall k :: 0 <= k < |run.sent| - 2 ==> run.sent[k].opcode != Close
  {
    var run := ClientAfter(request, outcome, role, frameChunks, lines, parse, closeEcho);
    if outcome.Ok? {
      var produced := if role == Consumer then [] else TextFrames(lines);
      var consumed := if role == Producer then [] else Consume(frameChunks, parse, closeEcho, true).sent;
      ConsumeSends(frameChunks, parse, closeEcho, true);
      assert Threads(role, frameChunks, lines, parse, closeEcho).sent == produced + consumed;
      NoEarlyClose(produced, consumed);
    }
  }

  /** TEXT frames, then PONGs and one last frame of any kind, then the empty
      CLOSE: no CLOSE before the last two frames. */
  lemma NoEarlyClose(produced: seq<Frame>, consumed: seq<Frame>)
    requires forall k :: 0 <= k < |produced| ==> produced[k].opcode == Text
    requires forall k :: 0 <= k < |consumed| - 1 ==> consumed[k].opcode == Pong
    ensures var all := produced + consumed + [EmptyClose];
      forall k :: 0 <= k < |all| - 2 ==> all[k].opcode != Close
  {
    var all := produced + consumed + [EmptyClose];
    forall k | 0 <= k < |all| - 2
      ensures all[k].opcode != Close
    {
      if k < |produced| {
        assert all[k] == produced[k];
      } else {
        assert all[k] == consumed[k - |produced|];
      }
    }
  }
}
