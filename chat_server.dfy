/** The chat test server (`ws_chat_test_server.py`): a WebSocket server
    with three routes. Sessions on `/consumer` or `/both` are registered in
    the module list `_consumers`; sessions on `/producer` or `/both` read
    messages and broadcast each text message, prefixed by the sender's
    address, to every registered consumer but the sender. The asyncio event
    loop is modelled as an order of events (a connection opens, a message
    arrives, a connection ends); each event runs the code between two
    `await` points of one session. */
module ChatServer {
  import opened Base
  import Utf8
  import Text
  import opened Lists

  /** A connected WebSocket, by object identity. */
  type SessionId = nat

  /** The routes the server serves (`_process_request`). */
  predicate IsRoute(path: string) {
    path == "/producer" || path == "/consumer" || path == "/both"
  }

  /** Sessions on these paths are appended to `_consumers`. */
  predicate Consumes(path: string) {
    path == "/consumer" || path == "/both"
  }

  /** Sessions on these paths run `_handle_producer_session`. */
  predicate Produces(path: string) {
    path == "/producer" || path == "/both"
  }

  /** `HTTPStatus.BAD_REQUEST`. */
  const BadRequest: int := 400

  /** The message of a refused handshake, written in two halves so that
      each can be checked character by character. */
  const RouteError: string := RouteErrorHead + RouteErrorTail
  const RouteErrorHead: string := "Improper route. Must be one of "
  const RouteErrorTail: string := "\"/producer\", \"/consumer\", or \"/both\""

  /** The answer that refuses the opening handshake: a status, the header
      dictionary (`Content-Length` is an `int` there) and the body bytes. */
  datatype Rejection = Rejection(status: int, headers: map<string, int>, body: Bytes)

  /** `_process_request`: `None` lets the handshake go on. */
  function ProcessRequest(path: string): (r: Option<Rejection>)
    ensures r.None? <==> IsRoute(path)
  {
    if !IsRoute(path) then
      Some(Rejection(BadRequest, map["Content-Length" := |RouteError|], Utf8.Encode(RouteError)))
    else None
  }

  /** A refused path gets 400 with a `Content-Length` equal to the length of
      the body it comes with, and the body decodes to the route message. */
  lemma RejectionIsFramed(path: string)
    requires !IsRoute(path)
    ensures ProcessRequest(path).Some?
    ensures ProcessRequest(path).value.status == 400
    ensures "Content-Length" in ProcessRequest(path).value.headers
    ensures ProcessRequest(path).value.headers["Content-Length"] == |ProcessRequest(path).value.body|
    ensures Utf8.Decode(ProcessRequest(path).value.body) == Some(RouteError)
  {
    RouteErrorAscii();
    Utf8.EncodeAscii(RouteError);
    Utf8.DecodeEncode(RouteError);
  }

  lemma RouteErrorAscii()
    ensures Utf8.AllAscii(RouteError)
  {
    assert Utf8.AllAscii(RouteErrorHead);
    assert Utf8.AllAscii(RouteErrorTail);
    var a, b := RouteErrorHead, RouteErrorTail;
    forall k | 0 <= k < |a + b|
      ensures Utf8.IsAscii((a + b)[k])
    {
      if k >= |a| {
        assert (a + b)[k] == b[k - |a|];
      }
    }
  }

  /** What `_post_message` sends to: every consumer, in list order, except
      the source (all of them when there is no source, `not source`). */
  function Recipients(consumers: seq<SessionId>, source: Option<SessionId>): (r: seq<SessionId>)
    ensures |r| <= |consumers|
  {
    if consumers == [] then []
    else
      var init := Recipients(consumers[..|consumers| - 1], source);
      var c := consumers[|consumers| - 1];
      if source == Some(c) then init else init + [c]
  }

  /** A consumer is sent the message exactly when it is not the source. */
  lemma {:induction false} RecipientsMembers(consumers: seq<SessionId>, source: Option<SessionId>)
    ensures forall c :: c in Recipients(consumers, source) <==> c in consumers && source != Some(c)
    decreases |consumers|
  {
    if consumers != [] {
      var init := consumers[..|consumers| - 1];
      assert consumers == init + [consumers[|consumers| - 1]];
      RecipientsMembers(init, source);
    }
  }

  /** Without a source every consumer is sent the message, in order. */
  lemma {:induction false} RecipientsAll(consumers: seq<SessionId>)
    ensures Recipients(consumers, None) == consumers
    decreases |consumers|
  {
    if consumers != [] {
      var init := consumers[..|consumers| - 1];
      RecipientsAll(init);
      assert consumers == init + [consumers[|consumers| - 1]];
    }
  }

  /** A consumer that is not the source sees the message once per time it
      is registered: registering the source itself changes nothing. */
  lemma {:induction false} SourceNeverHearsItself(consumers: seq<SessionId>, source: SessionId)
    ensures Recipients(consumers + [source], Some(source)) == Recipients(consumers, Some(source))
  {
    assert (consumers + [source])[..|consumers|] == consumers;
  }

  /** The sends of one broadcast, as (recipient, text) pairs. */
  function Deliveries(recipients: seq<SessionId>, msg: string): seq<(SessionId, string)> {
    seq(|recipients|, k requires 0 <= k < |recipients| => (recipients[k], msg))
  }

  lemma DeliveriesSnoc(recipients: seq<SessionId>, c: SessionId, msg: string)
    ensures Deliveries(recipients + [c], msg) == Deliveries(recipients, msg) + [(c, msg)]
  {
    var a := Deliveries(recipients + [c], msg);
    var b := Deliveries(recipients, msg) + [(c, msg)];
    assert |a| == |b|;
    forall k | 0 <= k < |a|
      ensures a[k] == b[k]
    {
      if k < |recipients| {
        assert (recipients + [c])[k] == recipients[k];
      }
    }
  }

  /** `f'{websocket.remote_address[:2]}'`: the repr of the (host, port)
      pair. */
  function AddressTag(host: string, port: nat): string {
    "('" + host + "', " + Text.NatToString(port) + ")"
  }

  /** The broadcast form of a message received from an address. */
  function Tagged(host: string, port: nat, msg: string): (t: string)
    ensures |t| > |msg|
    ensures var tag := AddressTag(host, port) + ": ";
      |t| == |tag| + |msg| && t[..|tag|] == tag && t[|tag|..] == msg
  {
    AddressTag(host, port) + ": " + msg
  }

  const Notice: string := "Server only accepts text data! Closing connection."

  /** What `websocket.recv()` returns: `str` for a text message, `bytes`
      for a binary one. */
  datatype Message = TextMessage(text: string) | BinaryMessage(data: Bytes)

  /** The attributes of an open WebSocket that the handler reads. */
  datatype Session = Session(path: string, host: string, port: nat)

  /** One step of the event loop: a handshake completes, a producer's
      `recv` returns, or a connection ends (the peer closed it, a ping timed
      out, the task was cancelled). Most steps run the code between two
      `await` points; a broadcast, which awaits one `send` per consumer, is
      taken as a single step, so no other session runs in the middle of
      it. */
  datatype Event =
    | Connect(id: SessionId, path: string, host: string, port: nat)
    | Receive(id: SessionId, msg: Message)
    | Disconnect(id: SessionId)

  /** The server's state as a value: the sessions whose handler is
      running, the module list `_consumers`, the messages sent, and the
      sessions whose handler has finished (their socket closed by the
      `finally`). */
  datatype ServerState = ServerState(sessions: map<SessionId, Session>, consumers: seq<SessionId>,
                                     sent: seq<(SessionId, string)>, closed: set<SessionId>)

  /** `_consumers` holds, once each, exactly the running sessions on
      `/consumer` or `/both`; every running session is on a route, and a
      finished session is never running. */
  predicate Invariant(st: ServerState) {
    NoDup(st.consumers)
    && (forall c :: c in st.consumers ==> c in st.sessions && Consumes(st.sessions[c].path))
    && (forall id :: id in st.sessions ==> IsRoute(st.sessions[id].path) && id !in st.closed)
    && (forall id :: id in st.sessions && Consumes(st.sessions[id].path) ==> id in st.consumers)
  }

  /** A handshake on a new connection that `_process_request` refuses. */
  predicate RefusedAt(st: ServerState, e: Event) {
    e.Connect? && e.id !in st.sessions && e.id !in st.closed && !IsRoute(e.path)
  }

  /** The `finally` of a session's handler: it leaves `_consumers` and its
      socket is closed. */
  function Ended(st: ServerState, id: SessionId): ServerState {
    st.(sessions := st.sessions - {id}, consumers := RemoveFirst(st.consumers, id), closed := st.closed + {id})
  }

  /** One event: a handshake on a new connection on a route starts a
      session, registered when its path consumes; a message to a running
      producer is broadcast, or, when binary, answered with the notice and
      ends the session; a disconnect ends a running session. Events the
      library cannot deliver change nothing. */
  function Step(st: ServerState, e: Event): ServerState {
    match e
    case Connect(id, path, host, port) =>
      if id in st.sessions || id in st.closed || !IsRoute(path) then st
      else st.(sessions := st.sessions[id := Session(path, host, port)],
               consumers := st.consumers + (if Consumes(path) then [id] else []))
    case Receive(id, msg) =>
      if id !in st.sessions || !Produces(st.sessions[id].path) then st
      else
        var s := st.sessions[id];
        (match msg
         case TextMessage(t) =>
           st.(sent := st.sent + Deliveries(Recipients(st.consumers, Some(id)), Tagged(s.host, s.port, t)))
         case BinaryMessage(_) => Ended(st.(sent := st.sent + [(id, Notice)]), id))
    case Disconnect(id) =>
      if id in st.sessions then Ended(st, id) else st
  }

  /** The events run one after another. */
  function Steps(st: ServerState, events: seq<Event>): ServerState
    decreases |events|
  {
    if events == [] then st
    else Step(Steps(st, events[..|events| - 1]), events[|events| - 1])
  }

  /** The connections refused during the events, in order. */
  function Refused(st: ServerState, events: seq<Event>): seq<SessionId>
    decreases |events|
  {
    if events == [] then []
    else
      var init := events[..|events| - 1];
      var e := events[|events| - 1];
      Refused(st, init) + (if RefusedAt(Steps(st, init), e) then [e.id] else [])
  }

  /** Every event keeps the invariant. */
  lemma StepKeepsInvariant(st: ServerState, e: Event)
    requires Invariant(st)
    ensures Invariant(Step(st, e))
  {
    match e
    case Connect(id, path, host, port) =>
      if id !in st.sessions && id !in st.closed && IsRoute(path) {
        var r := Step(st, e);
        assert id !in st.consumers;
        forall i, j | 0 <= i < j < |r.consumers|
          ensures r.consumers[i] != r.consumers[j]
        {
          if j >= |st.consumers| {
            assert r.consumers[i] == st.consumers[i];
          }
        }
      }
    case Receive(id, msg) =>
      if id in st.sessions && Produces(st.sessions[id].path) && msg.BinaryMessage? {
        RemoveFirstNoDup(st.consumers, id);
      }
    case Disconnect(id) =>
      if id in st.sessions {
        RemoveFirstNoDup(st.consumers, id);
      }
  }

  /** Any run of events keeps the invariant. */
  lemma {:induction false} StepsKeepInvariant(st: ServerState, events: seq<Event>)
    requires Invariant(st)
    ensures Invariant(Steps(st, events))
    decreases |events|
  {
    if events != [] {
      StepsKeepInvariant(st, events[..|events| - 1]);
      StepKeepsInvariant(Steps(st, events[..|events| - 1]), events[|events| - 1]);
    }
  }

  /** Some event of the run is a refused handshake of `id`. */
  predicate RefusedSomewhere(st: ServerState, events: seq<Event>, id: SessionId) {
    exists k :: 0 <= k < |events| && RefusedAt(Steps(st, events[..k]), events[k]) && events[k].id == id
  }

  lemma {:induction false} RefusedMember(st: ServerState, events: seq<Event>, id: SessionId)
    ensures id in Refused(st, events) <==> RefusedSomewhere(st, events, id)
    decreases |events|
  {
    if events != [] {
      var n := |events| - 1;
      var init := events[..n];
      RefusedMember(st, init, id);
      if id in Refused(st, events) {
        if id in Refused(st, init) {
          var k :| 0 <= k < n && RefusedAt(Steps(st, init[..k]), init[k]) && init[k].id == id;
          assert events[..k] == init[..k] && events[k] == init[k];
        } else {
          assert RefusedAt(Steps(st, events[..n]), events[n]) && events[n].id == id;
        }
      }
      if RefusedSomewhere(st, events, id) {
        var k :| 0 <= k < |events| && RefusedAt(Steps(st, events[..k]), events[k]) && events[k].id == id;
        if k < n {
          assert events[..k] == init[..k] && events[k] == init[k];
          assert RefusedSomewhere(st, init, id);
        } else {
          assert events[..k] == init;
        }
      }
    }
  }

  /** A connection is refused exactly when its handshake is on a new
      connection and a bad route. */
  lemma RefusedExactly(st: ServerState, events: seq<Event>)
    ensures forall id :: id in Refused(st, events) <==>
      exists k :: 0 <= k < |events| && RefusedAt(Steps(st, events[..k]), events[k]) && events[k].id == id
  {
    forall id
      ensures id in Refused(st, events) <==> RefusedSomewhere(st, events, id)
    {
      RefusedMember(st, events, id);
    }
  }

  /** Sends are only ever appended and a finished session stays finished. */
  lemma {:induction false} StepsGrow(st: ServerState, events: seq<Event>)
    ensures var r := Steps(st, events);
      st.closed <= r.closed && |st.sent| <= |r.sent| && r.sent[..|st.sent|] == st.sent
    decreases |events|
  {
    if events != [] {
      var mid := Steps(st, events[..|events| - 1]);
      StepsGrow(st, events[..|events| - 1]);
      var r := Step(mid, events[|events| - 1]);
      assert r.sent[..|mid.sent|] == mid.sent;
      assert r.sent[..|st.sent|] == mid.sent[..|st.sent|];
    }
  }

  class Server {
    var sessions: map<SessionId, Session>
    var consumers: seq<SessionId>
    var sent: seq<(SessionId, string)>
    var closed: set<SessionId>

    /** The fields as a state value. */
    function State(): ServerState
      reads this
    {
      ServerState(sessions, consumers, sent, closed)
    }

    predicate Valid()
      reads this
    {
      Invariant(State())
    }

    constructor ()
      ensures Valid()
      ensures sessions == map[] && consumers == [] && sent == [] && closed == {}
    {
      sessions := map[];
      consumers := [];
      sent := [];
      closed := {};
    }

    /** A handshake on a new connection: `_process_request` refuses it, or
        `_handle_session` starts and registers consumers. */
    method Open(id: SessionId, path: string, host: string, port: nat) returns (rejection: Option<Rejection>)
      requires Valid() && id !in sessions && id !in closed
      modifies this
      ensures Valid()
      ensures rejection == ProcessRequest(path)
      ensures rejection.Some? ==> sessions == old(sessions) && consumers == old(consumers)
      ensures rejection.None? ==> sessions == old(sessions)[id := Session(path, host, port)]
      ensures rejection.None? ==> consumers == old(consumers) + (if Consumes(path) then [id] else [])
      ensures sent == old(sent) && closed == old(closed)
    {
      rejection := ProcessRequest(path);
      if rejection.None? {
        sessions := sessions[id := Session(path, host, port)];
        if path == "/consumer" || path == "/both" {
          consumers := consumers + [id];
        }
      }
    }

    /** `_post_message`: the loop over `_consumers`. */
    method PostMessage(msg: string, source: Option<SessionId>)
      modifies this
      ensures sent == old(sent) + Deliveries(Recipients(consumers, source), msg)
      ensures sessions == old(sessions) && consumers == old(consumers) && closed == old(closed)
    {
      var i := 0;
      while i < |consumers|
        invariant 0 <= i <= |consumers|
        invariant sessions == old(sessions) && consumers == old(consumers) && closed == old(closed)
        invariant sent == old(sent) + Deliveries(Recipients(consumers[..i], source), msg)
      {
        var consumer := consumers[i];
        var before := Recipients(consumers[..i], source);
        assert consumers[..i + 1][..i] == consumers[..i];
        if source.None? || consumer != source.value {
          sent := sent + [(consumer, msg)];
          DeliveriesSnoc(before, consumer, msg);
        }
        i := i + 1;
      }
      assert consumers[..i] == consumers;
    }

    /** One turn of `_handle_producer_session`'s loop: a text message is
        broadcast to everyone but its sender; anything else is answered
        with a notice, ends the loop and so the session. */
    method HandleMessage(id: SessionId, msg: Message)
      requires Valid() && id in sessions && Produces(sessions[id].path)
      modifies this
      ensures Valid()
      ensures msg.TextMessage? ==>
        var s := old(sessions)[id];
        sent == old(sent) + Deliveries(Recipients(old(consumers), Some(id)), Tagged(s.host, s.port, msg.text))
        && sessions == old(sessions) && consumers == old(consumers) && closed == old(closed)
      ensures msg.BinaryMessage? ==>
        sent == old(sent) + [(id, Notice)]
        && sessions == old(sessions) - {id} && consumers == RemoveFirst(old(consumers), id)
        && closed == old(closed) + {id}
    {
      if msg.TextMessage? {
        var s := sessions[id];
        PostMessage(Tagged(s.host, s.port, msg.text), Some(id));
      } else {
        sent := sent + [(id, Notice)];
        Finish(id);
      }
    }

    /** The connection of a running session ended (`recv` or `wait_closed`
        returned by an exception or normally): the handler's `finally`. */
    method Finish(id: SessionId)
      requires Valid() && id in sessions
      modifies this
      ensures Valid()
      ensures id !in consumers
      ensures consumers == RemoveFirst(old(consumers), id)
      ensures sessions == old(sessions) - {id} && closed == old(closed) + {id}
      ensures sent == old(sent)
    {
      if id in consumers {
        consumers := RemoveFirst(consumers, id);
      } else {
        RemoveAbsent(consumers, id);
      }
      RemoveFirstNoDup(old(consumers), id);
      sessions := sessions - {id};
      closed := closed + {id};
    }

    /** One event: the handshake (refused or started), a message to a
        producer, or a session's end. Events the library cannot deliver (a
        second handshake on one connection, a message to a finished session
        or to one that does not read) are passed over. */
    method Apply(e: Event) returns (refused: bool)
      requires Valid()
      modifies this
      ensures State() == Step(old(State()), e)
      ensures refused == RefusedAt(old(State()), e)
      ensures Valid()
    {
      refused := false;
      match e {
      case Connect(id, path, host, port) =>
        if id !in sessions && id !in closed {
          var r := Open(id, path, host, port);
          refused := r.Some?;
        }
      case Receive(id, msg) =>
        if id in sessions && Produces(sessions[id].path) {
          HandleMessage(id, msg);
        }
      case Disconnect(id) =>
        if id in sessions {
          Finish(id);
        }
      }
    }

    /** Runs the events in order. The new state is `Steps` of the old one,
        and the refused connections are exactly the new ones on a bad
        route. */
    method Run(events: seq<Event>) returns (rejected: seq<SessionId>)
      requires Valid()
      modifies this
      ensures State() == Steps(old(State()), events)
      ensures rejected == Refused(old(State()), events)
      ensures forall k :: 0 <= k < |events| && RefusedAt(Steps(old(State()), events[..k]), events[k]) ==>
        events[k].id in rejected
      ensures Valid()
      ensures old(closed) <= closed
      ensures |old(sent)| <= |sent| && sent[..|old(sent)|] == old(sent)
      ensures forall id :: id in rejected ==> exists k :: 0 <= k < |events| && events[k].Connect? && events[k].id == id && !IsRoute(events[k].path)
    {
      ghost var start := State();
      rejected := [];
      var i := 0;
      while i < |events|
        invariant 0 <= i <= |events|
        invariant State() == Steps(start, events[..i])
        invariant rejected == Refused(start, events[..i])
        invariant Valid()
        decreases |events| - i
      {
        assert events[..i + 1][..i] == events[..i];
        var refused := Apply(events[i]);
        if refused {
          rejected := rejected + [events[i].id];
        }
        i := i + 1;
      }
      assert events[..i] == events;
      StepsGrow(start, events);
      RefusedExactly(start, events);
    }
  }

  /** The sends of a whole producer session, while the consumers stay as
      they are: one broadcast per text message, up to the first binary
      message, which is answered with the notice and ends the session. */
  function Produced(consumers: seq<SessionId>, id: SessionId, s: Session, msgs: seq<Message>): seq<(SessionId, string)>
    decreases |msgs|
  {
    if msgs == [] then []
    else match msgs[0]
      case TextMessage(t) =>
        Deliveries(Recipients(consumers, Some(id)), Tagged(s.host, s.port, t)) + Produced(consumers, id, s, msgs[1..])
      case BinaryMessage(_) => [(id, Notice)]
  }

  /** The only send to `id` is a closing notice, and it is the last send. */
  predicate OnlyNoticeTo(out: seq<(SessionId, string)>, id: SessionId) {
    forall k :: 0 <= k < |out| && out[k].0 == id ==> k == |out| - 1 && out[k].1 == Notice
  }

  /** A producer is sent nothing of its own traffic but the closing notice,
      and that only as the session's last send. */
  lemma {:induction false} SenderOnlyNotified(consumers: seq<SessionId>, id: SessionId, s: Session, msgs: seq<Message>)
    ensures OnlyNoticeTo(Produced(consumers, id, s, msgs), id)
    decreases |msgs|
  {
    if msgs != [] && msgs[0].TextMessage? {
      var rs := Recipients(consumers, Some(id));
      var d := Deliveries(rs, Tagged(s.host, s.port, msgs[0].text));
      var rest := Produced(consumers, id, s, msgs[1..]);
      SenderOnlyNotified(consumers, id, s, msgs[1..]);
      RecipientsMembers(consumers, Some(id));
      var out := Produced(consumers, id, s, msgs);
      assert out == d + rest;
      assert |d| == |rs|;
      forall k | 0 <= k < |out| && out[k].0 == id
        ensures k == |out| - 1 && out[k].1 == Notice
      {
        if k < |d| {
          assert false;
        } else {
          var j := k - |d|;
          assert out[k] == rest[j] && rest[j].0 == id;
        }
      }
    }
  }

  /** Every send to someone other than `id` starts with `tag`. */
  predicate TaggedFor(out: seq<(SessionId, string)>, id: SessionId, tag: string) {
    forall k :: 0 <= k < |out| && out[k].0 != id ==> |tag| <= |out[k].1| && out[k].1[..|tag|] == tag
  }

  /** Everything a producer's session sends to others carries its address
      tag in front. */
  lemma {:induction false} BroadcastsAreTagged(consumers: seq<SessionId>, id: SessionId, s: Session, msgs: seq<Message>)
    ensures TaggedFor(Produced(consumers, id, s, msgs), id, AddressTag(s.host, s.port) + ": ")
    decreases |msgs|
  {
    if msgs != [] && msgs[0].TextMessage? {
      var tag := AddressTag(s.host, s.port) + ": ";
      var m := Tagged(s.host, s.port, msgs[0].text);
      var d := Deliveries(Recipients(consumers, Some(id)), m);
      var rest := Produced(consumers, id, s, msgs[1..]);
      BroadcastsAreTagged(consumers, id, s, msgs[1..]);
      var out := Produced(consumers, id, s, msgs);
      assert out == d + rest;
      assert m == tag + msgs[0].text;
      assert m[..|tag|] == tag;
      forall k | 0 <= k < |out| && out[k].0 != id
        ensures |tag| <= |out[k].1| && out[k].1[..|tag|] == tag
      {
        if k < |d| {
          assert out[k] == d[k] && d[k].1 == m;
        } else {
          var j := k - |d|;
          assert out[k] == rest[j] && rest[j].0 != id;
        }
      }
    }
  }

  /** The first binary message ends the session: what follows it is never
      read. */
  lemma {:induction false} StopsAtBinary(consumers: seq<SessionId>, id: SessionId, s: Session, msgs: seq<Message>, j: nat)
    requires j < |msgs| && msgs[j].BinaryMessage?
    ensures Produced(consumers, id, s, msgs) == Produced(consumers, id, s, msgs[..j + 1])
    decreases j
  {
    if j > 0 {
      assert msgs[1..][..j] == msgs[..j + 1][1..];
      StopsAtBinary(consumers, id, s, msgs[1..], j - 1);
    }
  }

  /** Registering a new session and removing it again leaves the list as
      it was. */
  lemma RegisterThenRemove(base: seq<SessionId>, id: SessionId, registered: bool)
    requires id !in base
    ensures RemoveFirst(base + (if registered then [id] else []), id) == base
  {
    if registered {
      assert (base + [id])[..|base|] == base;
      RemoveAt(base + [id], id, |base|);
    } else {
      assert base + [] == base;
      RemoveAbsent(base, id);
    }
  }

  /** A whole session on `/producer` or `/both` between its handshake and
      its end, with no other event in between, sends what `Produced`
      says, and leaves `_consumers` as it found it. */
  method ProducerSession(server: Server, id: SessionId, path: string, host: string, port: nat, msgs: seq<Message>)
    requires server.Valid() && id !in server.sessions && id !in server.closed && Produces(path)
    modifies server
    ensures server.Valid()
    ensures server.sent == old(server.sent) + Produced(old(server.consumers), id, Session(path, host, port), msgs)
    ensures server.consumers == old(server.consumers)
    ensures id !in server.sessions && id in server.closed
  {
    ghost var base := server.consumers;
    var r := server.Open(id, path, host, port);
    var s := Session(path, host, port);
    ghost var cs := server.consumers;
    assert r.None?;
    assert Recipients(cs, Some(id)) == Recipients(base, Some(id)) by {
      if Consumes(path) {
        SourceNeverHearsItself(base, id);
      } else {
        assert cs == base + [] == base;
      }
    }
    RegisterThenRemove(base, id, Consumes(path));
    var i := 0;
    var closing := false;
    while !closing && i < |msgs|
      invariant 0 <= i <= |msgs|
      invariant server.Valid()
      invariant !closing ==> id in server.sessions && server.sessions[id] == s && server.consumers == cs
      invariant closing ==> server.consumers == base && id !in server.sessions && id in server.closed
      invariant old(server.sent) + Produced(base, id, s, msgs)
        == server.sent + (if closing then [] else Produced(base, id, s, msgs[i..]))
      decreases |msgs| - i, !closing
    {
      assert msgs[i..][1..] == msgs[i + 1..];
      ghost var sent0 := server.sent;
      server.HandleMessage(id, msgs[i]);
      if msgs[i].BinaryMessage? {
        closing := true;
      } else {
        Assoc(sent0, Deliveries(Recipients(base, Some(id)), Tagged(host, port, msgs[i].text)), Produced(base, id, s, msgs[i + 1..]));
      }
      i := i + 1;
    }
    if !closing {
      assert msgs[i..] == [];
      server.Finish(id);
    }
  }
}
