# WebSocket chat client, HTTP helper, waker and toy servers — a Dafny model

This project models the sequential logic of a small WebSocket chat system
written in Python:

- the chat client `testclient.py`: the opening handshake (an HTTP Upgrade
  request with a base64 key, checked against the `Sec-WebSocket-Accept`
  answer), the reaction to each received frame (PING answered by PONG,
  CLOSE echoed, TEXT shown, the rest ignored), the producer and consumer
  loops, and `main`, whose `finally` always sends one more empty CLOSE and
  closes the socket;
- the draft client `unchange.py`: its own handshake request and check, the
  heartbeat and close handlers, a consumer that keeps a byte buffer across
  `recv` calls and parses frames from its front, and a producer that stops
  at a line reading `/quit` in any case;
- `a2lib/httplib.py`: the `HttpMessage` class (the `body` setter that keeps
  `Content-Length` in step, `__bytes__`, both `_header_repr`s) and the
  readers `get_http_response` and `get_http_request`;
- `a2lib/main_thread_waker.py`: the one-shot `_woken` flag that lets the
  consumer thread interrupt the main thread once;
- `ws_chat_test_server.py`: the route check, the module list `_consumers`
  (registration by path, removal when a session ends) and the broadcast to
  every consumer but the sender;
- `terminal_server_select.py`: the "chat-hopper" `select` loop, its list
  `receiving` and the `lastWord` swap.

Sockets are modelled as the sequence of chunks their `recv` calls return
(`WebSocket.Connection`, or a plain `seq<Bytes>` for the pure readers) and
the log of what they send; a send fails only after the socket's own close
(a peer that resets the connection is not modelled). Console input is a
sequence of lines. SHA-1, the WebSocket frame parser and
`Close.parse`/`serialize` are function parameters; frames stay values (`WebSocket.Frame`). Python exceptions become
`Result` errors. The asyncio event loop of the chat server and the `select`
call of the hopper are modelled by the order of the events they report.

Several things the code does are modelled as written even though a reader
might expect otherwise:

- `get_http_response` replaces `data` on each `recv`, so a head whose
  CRLF CRLF straddles two chunks is never found
  (`HttpRoundTrip.SplitBlankLineIsMissed`).
- `get_http_request` always fails: it passes `version` to an
  `HttpRequest.__init__` that does not take it (`HttpParse.ReadRequest`).
- The `body` setter stores `len(body)`, which counts characters, not bytes,
  for a `str` body (`Http.StrBodyCountsCharacters`).
- `testclient.py` sends a second, empty CLOSE after echoing a peer's CLOSE
  (`TestClient.PeerCloseSendsTwoCloses`).
- When the server never completes its response head, `get_http_response`
  waits for ever, so `testclient.py` never reaches its `finally`
  (`TestClient.HeadlessServerHangs`).
- In the hopper, an empty read before any swap raises on the unbound
  `currWord`, which the loop's `except OSError` does not catch, so the
  server ends (`Hopper.SilentFirstClientEndsServer`).

The code has no session state machine, idle timeout or cancellation
token, so the model has none.

Modules: `Base` (bytes, `Option`, `Result`), `Text` (the `str`/`bytes`
builtins the code uses), `Utf8`, `Base64`, `Fields` (a `dict` of header
fields in insertion order), `Lists` (`list.remove`), `Http` and `HttpParse`
and `HttpRoundTrip` (`a2lib/httplib.py`), `WebSocket` (frames, the key, the
socket), `Waker`, `TestClient`, `Unchange`, `ChatServer` and `Hopper`.

## Model

| member | source | states |
|---|---|---|
| Text.TrimLeft | a2lib/httplib.py:102 | `strip` from the left: the result is a suffix, starts with a kept character, and every dropped character is whitespace |
| Text.TrimRight | a2lib/httplib.py:102 | `strip` from the right: the result is a prefix, ends with a kept character, and every dropped character is whitespace |
| Text.FindFrom | a2lib/httplib.py:95 | `bytes.find`: the index of the first occurrence at or after `from`, or -1 exactly when there is none |
| Text.SplitJoin | a2lib/httplib.py:102 | splitting on CRLF the CRLF-joined lines gives the lines back, when no line holds a CR |
| Text.SplitOnce | a2lib/httplib.py:107 | `line.split(":", 1)` unpacks exactly when the line holds a ':'; the name holds no ':' and name ':' value is the line |
| Text.IsSpace | a2lib/httplib.py:102 | definition: the characters `str.isspace` accepts, which `strip` and `split()` drop |
| Text.Strip | a2lib/httplib.py:102 | definition: `strip()`, the composition of `TrimLeft` and `TrimRight` over `IsSpace` |
| Text.StripBytes | terminal_server_select.py:57 | definition: `bytes.strip()`, trimming ASCII whitespace at both ends |
| Text.Split | a2lib/httplib.py:102 | definition: `split('\r\n')`; `SplitJoin` shows it inverts joining |
| Text.ParseInt | a2lib/httplib.py:132 | definition: `int()` of a stripped string: an optional sign and decimal digits, `None` for the ValueError; `ParseNatToString` ties it to the decimal rendering |
| Text.SplitWhitespace | a2lib/httplib.py:126 | `split(maxsplit=2)`: at most three parts, each non-empty and not starting with whitespace; a last part keeps its inner spaces ("Not Found"); `SplitWordFront` and `SplitAfterSpace` give its value word by word |
| Text.SplitWordFront | a2lib/httplib.py:126 | a leading word followed by whitespace is split off as the first part |
| Text.SplitAfterSpace | a2lib/httplib.py:126 | a space in front of a part that starts with a non-space is skipped |
| Text.ParseNatToString | a2lib/httplib.py:29 | `int()` of the decimal text of a length is that length |
| Text.LowerAscii | unchange.py:68 | `lower()` on ASCII letters: same length, each capital replaced by its small letter |
| Utf8.Encode | a2lib/httplib.py:49 | definition: `str.encode()`, the UTF-8 bytes of each character in turn |
| Utf8.Decode | a2lib/httplib.py:123 | definition: strict `bytes.decode()`, `None` for the UnicodeDecodeError |
| Utf8.DecodeEncode | a2lib/httplib.py:100 | `decode()` of `encode()` gives the string back |
| Utf8.EncodeAppend | a2lib/httplib.py:49 | encoding is compositional over concatenation |
| Utf8.EncodeAscii | a2lib/httplib.py:49 | an ASCII string encodes to one byte per character, its code |
| Base64.Encode | testclient.py:88 | definition: `b64encode`, three bytes to four characters with `=` padding |
| Base64.EncodeLength | testclient.py:88 | `b64encode` of n bytes has 4·⌈n/3⌉ characters |
| Base64.EncodeAlphabet | testclient.py:88 | every character of `b64encode` is from the RFC 4648 alphabet or `=` |
| Fields.IndexOf | a2lib/httplib.py:30 | the position of the one field with that name, or -1 when the dict has none |
| Fields.GetOrEmpty | a2lib/httplib.py:134 | a `defaultdict(str)` read: the value when present, "" otherwise |
| Fields.Set | a2lib/httplib.py:29 | `d[name] = value`: the name now maps to the value, every other name keeps its value, an existing name keeps its place and a new one goes last |
| Fields.Delete | a2lib/httplib.py:31 | `del d[name]`: the name is gone and every other name keeps its value |
| Fields.RemoveAt | a2lib/httplib.py:31 | removing the field at the name's index keeps names unique and removes only that name |
| Http.WithBody | a2lib/httplib.py:25-31 | the body setter: `Content-Length` is the body's length when the body is truthy and absent otherwise; no other field changes |
| Http.HeaderRepr | a2lib/httplib.py:72-73 | definition: `_header_repr`: `METHOD URL HTTP/1.1` for a request, `HTTP/1.1 STATUS` with ` MSG` only when the message is non-empty for a response, each ended by CRLF; `StatusFieldsOfText` reads the status line back |
| Http.Serialize | a2lib/httplib.py:36-49 | definition: `__bytes__`; `SerializeLayout`, `BytesBodyLength` and `ResponseRoundTrip` state its layout and that it reads back |
| Http.WithBodyIdempotent | a2lib/httplib.py:25-31 | setting the same body twice leaves the fields as setting it once |
| Http.SerializeLayout | a2lib/httplib.py:36-49 | `__bytes__` is the encoded start line, field lines and blank line, then the body's bytes |
| Http.BytesBodyLength | a2lib/httplib.py:28-29 | for a `bytes` body `Content-Length` is the number of bytes written after the head, and absent for an empty body |
| Http.StrBodyCountsCharacters | a2lib/httplib.py:29 | for a `str` body `Content-Length` counts characters: "é" is announced as 1 and written as 2 bytes |
| Http.HttpMessage.Request | a2lib/httplib.py:61-65 | a request holds its start line, the given fields passed through the body setter, and the body |
| Http.HttpMessage.Response | a2lib/httplib.py:79-83 | a response holds its status line, the given fields passed through the body setter, and the body |
| Http.HttpMessage.SetBody | a2lib/httplib.py:25-31 | the setter stores the body and updates `Content-Length` as `WithBody` says, keeping the start line |
| Http.HttpMessage.ToBytes | a2lib/httplib.py:36-49 | the loop over the fields builds exactly the serialisation of the message |
| HttpParse.FromRecv | a2lib/httplib.py:9 | definition: every chunk holds at most `_RECV_BUFFER_SIZE` (4096) bytes, as `recv(4096)` returns |
| HttpParse.HeadChunk | a2lib/httplib.py:117-121 | the first chunk holding CRLF CRLF, with no earlier chunk holding one |
| HttpParse.SplitHead | a2lib/httplib.py:117-125 | the head is the bytes before the first CRLF CRLF of that chunk, the body starts after it, and the later chunks are still to come; otherwise the loop never ends or decoding fails |
| HttpParse.SplitChunk | a2lib/httplib.py:123-125 | the head is the bytes before the chunk's first CRLF CRLF and the body the bytes after it; only decoding can fail |
| HttpParse.HeadWithinOneRecv | a2lib/httplib.py:117-121 | with chunks of at most 4096 bytes, the raw head bytes that are read, CRLF CRLF included, plus the first body bytes come to at most 4096, so a longer head is never read |
| HttpParse.StatusFields | a2lib/httplib.py:126-132 | the status line yields a known `HTTPStatus` code and a message, or one of the three errors |
| HttpParse.CollectFields | a2lib/httplib.py:134-137 | the header loop succeeds exactly when every line holds a ':' |
| HttpParse.LineField | a2lib/httplib.py:136-137 | definition: the name before the first ':' kept verbatim, the rest stripped |
| HttpParse.LastValue | a2lib/httplib.py:134-137 | definition: the value of the last field with the name, found from the end independently of the header loop |
| HttpParse.CollectFieldsLastWins | a2lib/httplib.py:134-137 | after the header loop each name has the stripped value of the last line that carries it |
| HttpParse.LastValueFront | a2lib/httplib.py:135-137 | the last value of a name does not depend on where the scan starts |
| HttpParse.ReadBody | a2lib/httplib.py:139-141 | the body loop ends with at least `Content-Length` bytes, extends the initial body by whole chunks and is never cut back; it fails exactly when all chunks together are too short |
| HttpParse.BodyFor | a2lib/httplib.py:139-141 | definition: the initial body when there is no `Content-Length`, otherwise the body loop, with the errors of `int()` and of a loop that never ends |
| HttpParse.ReadResponse | a2lib/httplib.py:116-143 | a parsed response has a known status, a `bytes` body, and fields that already agree with the body setter |
| HttpParse.ReadRequest | a2lib/httplib.py:93-114 | `get_http_request` never returns a request; when the head, fields and body all parse it fails at the constructor call |
| HttpParse.ReceiveHead | a2lib/httplib.py:117-125 | the first `recv` loop gives the head `SplitHead` describes |
| HttpParse.DecodeHead | a2lib/httplib.py:123-125 | decoding, stripping and splitting the head agree with `SplitChunk` |
| HttpParse.ReadFields | a2lib/httplib.py:134-137 | the header loop gives the dict `CollectFields` describes |
| HttpParse.ReceiveBody | a2lib/httplib.py:139-141 | the body loop gives the body `ReadBody` describes |
| HttpParse.ReceiveBodyFor | a2lib/httplib.py:139-141 | the body is read only when `Content-Length` is present and an integer |
| HttpParse.GetHttpResponse | a2lib/httplib.py:116-143 | `get_http_response` returns a new message equal to `ReadResponse`, or raises the same error |
| HttpParse.GetHttpRequest | a2lib/httplib.py:93-114 | `get_http_request` raises the error `ReadRequest` gives |
| HttpRoundTrip.StatusFieldsOfText | a2lib/httplib.py:89-90 | the status line `_header_repr` writes parses back to the same status and message |
| HttpRoundTrip.LineFieldOfText | a2lib/httplib.py:39 | a field line `__bytes__` writes splits back into the same name and value |
| HttpRoundTrip.CollectFieldTexts | a2lib/httplib.py:134-137 | the header loop over the written field lines rebuilds the same dict |
| HttpRoundTrip.SerializedLayout | a2lib/httplib.py:36-49 | a response's bytes are its CRLF-joined head, CRLF CRLF and the body, with the first CRLF CRLF right after the head |
| HttpRoundTrip.SplitHeadOfSerialized | a2lib/httplib.py:117-125 | the head split of a written response gives back its lines and body |
| HttpRoundTrip.FieldsOfParsable | a2lib/httplib.py:134-137 | the fields parse back to the message's fields |
| HttpRoundTrip.BodyOfParsable | a2lib/httplib.py:139-141 | the body loop stops at once on a written response's body |
| HttpRoundTrip.ResponseRoundTrip | a2lib/httplib.py:36-49 | reading back a written response of at most 4096 bytes, whatever arrives after it, gives the same message (status, message, fields and body) |
| HttpRoundTrip.SplitBlankLineIsMissed | a2lib/httplib.py:117-121 | CRLF CRLF split over two chunks is never found, so the read fails |
| WebSocket.KeyText | testclient.py:88 | the key is 24 base64 characters |
| WebSocket.AcceptFor | testclient.py:105 | the expected accept value is 28 characters |
| WebSocket.MagicValIsGuid | unchange.py:30 | the bytes of `MAGIC_VAL` are the UTF-8 encoding of the GUID written out in the draft |
| WebSocket.Connection.Recv | testclient.py:116 | `recv` returns the next chunk, or no bytes once the peer has closed |
| WebSocket.Connection.Send | testclient.py:113 | `sendall` writes the frame while the socket is open and fails after `close` |
| WebSocket.Connection.Close | testclient.py:76 | `close` counts one close and changes nothing else |
| Waker.Final | a2lib/main_thread_waker.py:14-36 | definition: `_woken` after a sequence of calls, each of which sets it |
| Waker.Raises | a2lib/main_thread_waker.py:31-34 | definition: how many of the calls raise `WakingMainThread`: handler calls on a clear flag |
| Waker.FinalMonotone | a2lib/main_thread_waker.py:14-36 | once set, `_woken` stays set, and any handler or `main_awake` call sets it |
| Waker.NoRaiseWhenWoken | a2lib/main_thread_waker.py:31-36 | when `_woken` is set no handler call raises |
| Waker.WakeOnce | a2lib/main_thread_waker.py:28-36 | over any sequence of calls at most one raises, and one does exactly when the flag was clear and the first call is the handler |
| Waker.NoRaiseAfterMainAwake | a2lib/main_thread_waker.py:20-22 | after `main_awake` no handler call ever raises |
| Waker.MainThreadWaker.constructor | a2lib/main_thread_waker.py:14 | the flag starts clear and no handler is registered |
| Waker.MainThreadWaker.Register | a2lib/main_thread_waker.py:16-18 | `register` installs the handler and leaves the flag alone |
| Waker.MainThreadWaker.MainAwake | a2lib/main_thread_waker.py:20-22 | `main_awake` sets the flag |
| Waker.MainThreadWaker.WakeHandler | a2lib/main_thread_waker.py:28-36 | the handler raises exactly when the flag was clear, and leaves it set |
| Waker.MainThreadWaker.WakeMainThread | a2lib/main_thread_waker.py:24-26 | with a handler registered the flag ends set and the handler raises exactly when it was clear; without one SIGILL ends the process and the flag is untouched |
| Waker.MainThreadWaker.Run | a2lib/main_thread_waker.py:14-36 | a sequence of calls raises as often as `Raises` counts and leaves the flag as `Final` says |
| TestClient.EstablishHandshake | testclient.py:87-98 | the request is `GET /{role}` with no body, the 24-character key, version 13 and protocol `chat`, and the key bytes decode to the key text |
| TestClient.ValidateHandshake | testclient.py:100-107 | any status but 101 fails; with 101 it succeeds exactly when the accept field equals base64(SHA-1(key ++ GUID)); a missing accept field fails |
| TestClient.PerformHandshake | testclient.py:81-85 | the request sent is the serialised upgrade request, and the handshake succeeds exactly when the response parses, has status 101 and the expected accept value |
| TestClient.React | testclient.py:123-135 | `pong_response`: PING gets one PONG with the same data, CLOSE gets one echoed CLOSE and stops, anything else sends nothing; at most one frame is sent |
| TestClient.PongResponse | testclient.py:128-135 | the method sends what `React` says, and wakes the main thread exactly when it stops on a CLOSE |
| TestClient.Consume | testclient.py:147-157 | definition: the consumer loop over the chunks: TEXT shown, other frames through `pong_response`, ending at the first stop or exception (a failed parse, bad UTF-8, a failed send) |
| TestClient.ConsumeSends | testclient.py:147-157 | the consumer sends only PONGs, followed by at most one CLOSE, and only when it stops on the peer's CLOSE |
| TestClient.PongInFront | testclient.py:130 | a PONG in front of such a run keeps its shape |
| TestClient.ConsumeText | testclient.py:151-152 | a TEXT frame is shown and sends nothing |
| TestClient.ConsumeOther | testclient.py:153 | any other frame sends what `React` says and the loop goes on |
| TestClient.RunConsumer | testclient.py:147-157 | the consumer loop sends, shows and ends as `Consume` says and wakes the main thread exactly on a peer CLOSE |
| TestClient.ReceiveOne | testclient.py:148-157 | one turn of the consumer loop keeps the run on track with `Consume` |
| TestClient.ReceiveOther | testclient.py:153-154 | one non-TEXT frame keeps the run on track with `Consume` |
| TestClient.TextFrames | testclient.py:142 | each line becomes one TEXT frame of its UTF-8 bytes, in order |
| TestClient.TextFramesSnoc | testclient.py:139-142 | one more line adds one more TEXT frame at the end |
| TestClient.RunProducer | testclient.py:138-145 | the producer sends every line as a TEXT frame, and nothing once the socket is closed |
| TestClient.Threads | testclient.py:52-66 | definition: what a role's threads send and show, the producer's lines first, and whether the consumer woke the main thread |
| TestClient.Client | testclient.py:20-78 | definition: the whole run of `main`: the handshake, then `ClientAfter` |
| TestClient.ClientAfter | testclient.py:43-76 | `main` hangs, sending nothing more and never closing, exactly when the handshake read never returns (a2lib/httplib.py lines 117-121 and 139-141); otherwise it ends with one empty CLOSE and one `close`, and a failed handshake sends nothing else |
| TestClient.NeverReturns | a2lib/httplib.py:119-121 | definition: the read errors that stand for `get_http_response` waiting for ever, in the head loop or in the body loop (lines 140-141) |
| TestClient.HeadlessServerHangs | testclient.py:84 | a response whose head never completes leaves `main` waiting: nothing is sent after the request and the socket is never closed |
| TestClient.RunClient | testclient.py:20-78 | `main` runs as `Client` says; unless it hangs, its last frame is the empty CLOSE of the `finally` and the socket is closed once |
| TestClient.RunRole | testclient.py:43-76 | after the handshake, the role dispatch and the `finally` run as `ClientAfter` says, and nothing runs after a read that never returns |
| TestClient.RunThreads | testclient.py:52-66 | the threads of a role send, show and wake as `Threads` says |
| TestClient.PeerCloseSendsTwoCloses | testclient.py:71-76 | after a peer's CLOSE the consumer role sends the echo and then a second, empty CLOSE |
| TestClient.AtMostTwoCloses | testclient.py:71-76 | no CLOSE comes before the last two frames of a run |
| TestClient.NoEarlyClose | testclient.py:138-157 | produced TEXT frames and consumed PONGs carry no CLOSE before the last two frames |
| Unchange.DraftFields | unchange.py:16-21 | five fields, none of them `Content-Length` or a subprotocol |
| Unchange.BuildHandshakeRequest | unchange.py:14-23 | the request is `GET /{client_type}` with no body and the draft's fields, and the key is 24 characters |
| Unchange.FillFields | unchange.py:16-21 | the dict filled field by field equals `DraftFields` |
| Unchange.SetFresh | unchange.py:17-21 | each assignment adds a new name at the end |
| Unchange.DraftAgainstClientRequest | unchange.py:14-23 | the draft's request agrees with the client's on Host, Upgrade, Connection, key and version, and lacks the `chat` subprotocol field |
| Unchange.DraftAccept | unchange.py:30 | definition: base64 of SHA-1 of the UTF-8 of key ++ GUID; `HashInput` and `DraftValidationAgrees` tie it to the client's value |
| Unchange.ValidateHandshakeResponse | unchange.py:25-32 | any status but 101 fails; with 101 it succeeds exactly when the accept field equals base64(SHA-1(utf8(key ++ GUID))) |
| Unchange.DraftValidationAgrees | unchange.py:25-32 | the draft's check gives the same verdict as the client's for the same key |
| Unchange.HashInput | unchange.py:30 | encoding key ++ GUID gives the key bytes followed by `MAGIC_VAL` |
| Unchange.HandleHeartbeat | unchange.py:34-38 | a PING gets exactly one PONG with the same data; a PONG sends nothing |
| Unchange.HandleClose | unchange.py:40-42 | one echoed CLOSE is sent, then the socket is closed |
| Unchange.Handle | unchange.py:54-60 | each frame sends at most one frame, PONGs before a CLOSE, and stops exactly on a CLOSE while open |
| Unchange.Drain | unchange.py:51-62 | definition: the inner loop: frames taken from the buffer's front and handled until one stops the consumer or the parser reports too short |
| Unchange.Consume | unchange.py:44-62 | definition: the outer loop: each chunk appended to the buffer and drained, until `recv` returns no bytes or the inner loop stops |
| Unchange.DrainKeepsRemainder | unchange.py:51-62 | when the parser reports too short, the kept buffer is a suffix of the buffer and is itself too short |
| Unchange.LeftoverIsSuffix | unchange.py:45-62 | when `recv` returns no bytes, the leftover buffer is a suffix of everything received |
| Unchange.StopsAtClose | unchange.py:58-60 | after the consumer returns on a CLOSE, later chunks change nothing |
| Unchange.DrainSends | unchange.py:51-62 | draining the buffer sends PONGs and at most one final CLOSE |
| Unchange.ConsumeSends | unchange.py:44-62 | the whole consumer sends PONGs and at most one final CLOSE, the CLOSE exactly when it stops on one |
| Unchange.HandleFrame | unchange.py:54-60 | one frame sends, shows and stops as `Handle` says, closing the socket only on a CLOSE |
| Unchange.DrainBuffer | unchange.py:51-62 | the inner loop sends, shows and ends as `Drain` says |
| Unchange.RunConsumer | unchange.py:44-62 | the consumer sends, shows and ends as `Consume` says, closing the socket once exactly when it stops on a CLOSE |
| Unchange.IsQuit | unchange.py:68 | definition: the five-character test `message.lower() == "/quit"`; `IsQuitLower` ties it to lowering |
| Unchange.IsQuitLower | unchange.py:68 | a line is `/quit` exactly when its lowercase form is `/quit` |
| Unchange.FirstQuit | unchange.py:68 | the first `/quit` line, or -1 when there is none |
| Unchange.Produce | unchange.py:64-73 | definition: one TEXT per line until the first `/quit`, which sends an empty CLOSE and stops |
| Unchange.ProduceShape | unchange.py:64-73 | the producer sends the lines before the first `/quit` as TEXT, then one empty CLOSE if there was a `/quit` |
| Unchange.OneCloseIffQuit | unchange.py:64-73 | every frame but the last is TEXT, and the last is a CLOSE exactly when some line is `/quit` |
| Unchange.RunProducer | unchange.py:64-73 | the producer loop sends what `Produce` says, and nothing once the socket is closed |
| Unchange.ProduceUpTo | unchange.py:65-70 | the loop up to the first `/quit` or the end gives what `Produce` says |
| Lists.RemoveAt | ws_chat_test_server.py:47 | `list.remove` drops the first occurrence and keeps the rest in order |
| Lists.RemoveAbsent | ws_chat_test_server.py:46-47 | removing an absent element changes nothing |
| Lists.RemoveFirstNoDup | ws_chat_test_server.py:46-47 | in a list without duplicates, removal keeps it without duplicates and drops exactly that element |
| ChatServer.ProcessRequest | ws_chat_test_server.py:63-68 | no rejection exactly when the path is `/producer`, `/consumer` or `/both` |
| ChatServer.RejectionIsFramed | ws_chat_test_server.py:65-67 | a rejection is 400 with `Content-Length` equal to the body's length, and the body decodes to the error text |
| ChatServer.RouteErrorAscii | ws_chat_test_server.py:66 | the error text is ASCII, so its length is its byte count |
| ChatServer.Recipients | ws_chat_test_server.py:16-20 | the recipients are a selection of the consumers |
| ChatServer.RecipientsMembers | ws_chat_test_server.py:18-19 | a session is a recipient exactly when it is a consumer and not the source |
| ChatServer.RecipientsAll | ws_chat_test_server.py:19 | with no source every consumer, in order, is a recipient |
| ChatServer.SourceNeverHearsItself | ws_chat_test_server.py:19 | adding the source as a consumer does not make it a recipient |
| ChatServer.DeliveriesSnoc | ws_chat_test_server.py:18-20 | one more recipient adds one more send at the end |
| ChatServer.AddressTag | ws_chat_test_server.py:57 | definition: the `repr` of `remote_address[:2]`, `('host', port)` |
| ChatServer.Tagged | ws_chat_test_server.py:57 | the broadcast text is the sender's address tag, then ": ", then the message unchanged; `BroadcastsAreTagged` states it for a whole session |
| ChatServer.Server.constructor | ws_chat_test_server.py:14 | the server starts with no sessions and no consumers |
| ChatServer.Server.Open | ws_chat_test_server.py:23-30 | a bad route is rejected and changes nothing; otherwise the session is live and is appended to `_consumers` exactly when its path consumes |
| ChatServer.Server.PostMessage | ws_chat_test_server.py:16-20 | the message is sent to every consumer but the source, in list order, and nothing else changes |
| ChatServer.Server.HandleMessage | ws_chat_test_server.py:53-61 | a text message is broadcast tagged with the sender's address; anything else sends the notice back to the sender and ends its session |
| ChatServer.Server.Finish | ws_chat_test_server.py:45-49 | the ended session leaves `_consumers` (its first occurrence only) and is closed; the invariant holds |
| ChatServer.Invariant | ws_chat_test_server.py:14-30 | definition: `_consumers` holds, once each, exactly the running sessions on `/consumer` or `/both`, and a finished session never runs |
| ChatServer.Step | ws_chat_test_server.py:23-61 | definition: one event on the state: a new connection on a route starts and registers a session, a text message is broadcast, a binary one gets the notice and ends its session, a disconnect ends it |
| ChatServer.Steps | ws_chat_test_server.py:23-61 | definition: the events one after another |
| ChatServer.Refused | ws_chat_test_server.py:63-68 | definition: the connections `_process_request` refuses during a run, in order |
| ChatServer.StepKeepsInvariant | ws_chat_test_server.py:23-49 | every event keeps the invariant |
| ChatServer.StepsKeepInvariant | ws_chat_test_server.py:23-49 | any run of events keeps the invariant |
| ChatServer.RefusedMember | ws_chat_test_server.py:63-68 | a connection is in the refused list exactly when one of its handshakes arrived on a new connection with a bad route |
| ChatServer.RefusedExactly | ws_chat_test_server.py:63-68 | the refused connections are exactly the new ones on a bad route, in both directions |
| ChatServer.StepsGrow | ws_chat_test_server.py:18-20 | a run only appends sends and only adds finished sessions |
| ChatServer.Server.Apply | ws_chat_test_server.py:23-61 | one event changes the fields as `Step` says and is refused exactly when `RefusedAt` holds; the invariant holds |
| ChatServer.Server.Run | ws_chat_test_server.py:23-61 | the new sessions, `_consumers`, sends and finished sessions are `Steps` of the old state; the refused list is `Refused`, so a new connection on a bad route is refused and nothing else is; the invariant holds |
| ChatServer.Produced | ws_chat_test_server.py:51-61 | definition: the sends of a producer session: one tagged broadcast per text message, and at the first binary message the notice to the sender and the end |
| ChatServer.SenderOnlyNotified | ws_chat_test_server.py:58-60 | a producer session never broadcasts to itself; the only send to it is the notice, and only as the last send |
| ChatServer.BroadcastsAreTagged | ws_chat_test_server.py:57 | every broadcast of a producer session carries the sender's address tag |
| ChatServer.StopsAtBinary | ws_chat_test_server.py:59-61 | messages after the first binary one are never read |
| ChatServer.RegisterThenRemove | ws_chat_test_server.py:27-28 | appending a session and removing it when it ends restores the list |
| ChatServer.ProducerSession | ws_chat_test_server.py:23-61 | a producer session sends what `Produced` says, leaves `_consumers` as it found it, and ends closed |
| Hopper.Next | terminal_server_select.py:37-64 | definition: one socket `select` reports: the listener appends the accepted client; a registered client is swapped with, answered, closed and removed, or the loop raises on an unbound `currWord` |
| Hopper.Run | terminal_server_select.py:33-71 | definition: `Next` over the reported sockets in order, collecting the replies and the messages heard, until the loop raises |
| Hopper.NextKeepsValid | terminal_server_select.py:37-64 | each step keeps the listener first and the list without duplicates; a served client is answered and leaves `receiving` |
| Hopper.ListenerStays | terminal_server_select.py:30 | the listening socket stays in `receiving` through any run |
| Hopper.Swap | terminal_server_select.py:54-62 | on data, the client is sent the previous word and "\nBye!\n", and its stripped data becomes the next word |
| Hopper.EmptyRead | terminal_server_select.py:54-62 | on no data, the word is kept and the stale reply is resent; with no reply yet the loop raises |
| Hopper.SilentFirstClientEndsServer | terminal_server_select.py:58 | a first client that sends nothing ends the server |
| Hopper.ChainCons | terminal_server_select.py:56-57 | one more served client extends the chain of replies |
| Hopper.RunSwap | terminal_server_select.py:52-64 | a run that starts with a served client is that reply followed by the rest of the run |
| Hopper.HopChain | terminal_server_select.py:33-64 | with non-empty reads the server never ends, each reply is the previous client's stripped message, and the last word is the last message heard |
| Hopper.FirstPost | terminal_server_select.py:15 | the first reply is "F1rst p0st" followed by "\nBye!\n" |
| Hopper.HopperServer.constructor | terminal_server_select.py:15-30 | the server starts with the listener alone in `receiving` and "F1rst p0st" as the word |
| Hopper.HopperServer.Handle | terminal_server_select.py:37-64 | one reported socket changes the state and sends as `Next` says, or the loop raises |
| Hopper.HopperServer.Serve | terminal_server_select.py:33-71 | the loop sends the replies `Run` gives, ends exactly when `Run` does, and ends in its final state |

## Left out

- Threads: for the role `both` the producer thread of `testclient.py` and of `unchange.py` runs to its end before the consumer thread starts; other interleavings on the shared socket are not modelled.
- Signal delivery (`os.kill`, `signal.signal`), `print`, `input()`, `argparse` and the unused `--timeout`/`--verbose`: I/O and CLI plumbing, replaced by parameters and sequences.
- The WebSocket frame format, masking, `Close.parse`/`serialize` and the `websockets` library: foreign code, modelled as function parameters and frame values.
- SHA-1 and the randomness of `os.urandom`: SHA-1 is a parameter and the 16 random bytes are a `Nonce` parameter.
- TestClient.RunRole: the waker is registered when the role runs, not before the connection is made; a wake before the handshake ends is not modelled.
- TestClient.Threads: the handshake response and the frames are read from two separate chunk sequences; bytes of a first frame that arrive in the same `recv` as the handshake response are not modelled.
- HttpParse.ReadResponse: reading a missing header from a `defaultdict` inserts it; the model's read does not, which only matters if the dict is written out again.
- Http.HttpMessage: the shared mutable default `headers={}` of the Python constructors is not modelled; each message owns its fields.
- Http.WithBody: `Content-Length` is stored as the decimal text of the length, where the Python dict holds an `int`; both write out the same bytes.
- HttpRoundTrip.ResponseRoundTrip: stated for responses with a `bytes` body, a known status, a status message with no line break and no whitespace at either end, field names with no ':' or line break, and field values with no line break and no whitespace at either end.
- HttpRoundTrip.ResponseRoundTrip: does not cover empty field values, though the source reads them back (a last line `X: ` loses its space to `strip()` and still splits to the value ""); `Parsable` requires every value to be non-empty.
- HttpRoundTrip.ResponseRoundTrip: covers a response that arrives in one `recv`; a response longer than 4096 bytes, whose body then arrives over several `recv` calls, is not covered.
- Chunk sizes: the readers, the clients' consumers and the hopper take chunks of any length, where `recv(4096)` and the hopper's `recv(1024)` return at most that many bytes; the lemmas hold for every length, so in particular for these, and `HttpParse.HeadWithinOneRecv` states what the bound does to the head.
- Text.ParseInt: accepts an optional sign and ASCII digits only; `int()` also accepts surrounding whitespace, underscores and other Unicode digits.
- Text.LowerAscii: models `str.lower()` on ASCII letters only; other characters that Python lowercases are kept.
- Unchange: `main`, its CLI and its final `sock.close()` are not modelled beyond the handshake functions; the frame parser's signature differs from the real library and is a parameter that returns a frame and a strictly shorter remainder, or "too short".
- ChatServer: send failures to a consumer and `ConnectionClosed` in the middle of a broadcast, pings, time-outs and cancellation are not modelled; a producer session's events run one after another (`ProducerSession`).
- ChatServer.Tagged: the address tag is the `repr` of a (host, port) pair and assumes the host holds no quote character.
- Hopper: a failed `accept`, an `OSError` from `sendall`, and an `OSError` from `recv(1024)` (a client that reset its connection) are not modelled; each is swallowed by `except OSError: pass`, skipping the close and removal of that client, which stays in `receiving`, and the rest of the ready list. Sockets are told apart by number.
- WebSocket.Connection.Send: a send on an open socket always succeeds; `sendall` raising on a connection the peer has reset (EPIPE, ECONNRESET) is not modelled. In the source that failure ends the client's producer loop, the consumer's PONG and CLOSE replies and `unchange.py`'s loops early. So the exact send logs of `TestClient.RunProducer`, `TestClient.RunClient` and `Unchange.RunProducer` hold only while the peer keeps the connection; only a send after the client's own `close` fails in the model.
