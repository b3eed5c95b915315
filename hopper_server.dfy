/** The "chat-hopper" TCP server (`terminal_server_select.py`): one
    `select` loop over the list `receiving`, which holds the listening
    socket and the accepted connections. Each client that sends something
    is answered with the message the previous client sent (the first one
    with "F1rst p0st"), followed by "\nBye!\n", and is then closed and
    dropped; its own stripped message becomes the next answer. `select`
    itself is modelled by the order of the events it reports. */
module Hopper {
  import opened Base
  import Utf8
  import Text
  import opened Lists

  /** A socket in `receiving`: the listening socket or an accepted
      connection, by identity. */
  datatype Sock = Listener | Client(id: nat)

  /** A value of `lastWord` or `currWord`: a `str` at first, the `bytes` a
      client sent once one has spoken. */
  datatype Word = Str(text: string) | Raw(data: Bytes)

  /** What `sendall` is given for a word: bytes as they are, a `str`
      encoded. */
  function WordBytes(w: Word): Bytes {
    match w
    case Str(t) => Utf8.Encode(t)
    case Raw(b) => b
  }

  /** The initial `lastWord`. */
  const FirstWord: Word := Str("F1rst p0st")

  /** `b'\nBye!\n'`. */
  const Bye: Bytes := [0x0A, 0x42, 0x79, 0x65, 0x21, 0x0A]

  /** A socket `select` reports ready: the listener, whose `accept` gives a
      new connection, or a client, whose `recv(1024)` gives `data`. */
  datatype Event = Accepted(id: nat) | Readable(id: nat, data: Bytes)

  /** The module-level variables the loop updates. `currWord` is unbound
      until the first non-empty read. */
  datatype State = State(receiving: seq<Sock>, lastWord: Word, currWord: Option<Word>)

  const Start: State := State([Listener], FirstWord, None)

  /** The listener leads `receiving` and no socket is in it twice. */
  predicate Valid(st: State) {
    |st.receiving| >= 1 && st.receiving[0] == Listener && NoDup(st.receiving)
  }

  /** One ready socket handled, or the `NameError` of reading `currWord`
      before it was ever bound (which ends the program). */
  datatype Outcome = Served(next: State, reply: Option<(nat, Bytes)>) | Unbound

  /** The body of the `for r in r_ready` loop for one socket. A socket not
      in `receiving` is never reported, and an accepted connection is a new
      socket; such events change nothing. */
  function Next(st: State, e: Event): Outcome {
    match e
    case Accepted(c) =>
      if Client(c) in st.receiving then Served(st, None)
      else Served(st.(receiving := st.receiving + [Client(c)]), None)
    case Readable(c, data) =>
      if Client(c) !in st.receiving then Served(st, None)
      else
        var last := if data != [] then Raw(Text.StripBytes(data)) else st.lastWord;
        var curr := if data != [] then Some(st.lastWord) else st.currWord;
        if curr.None? then Unbound
        else Served(State(RemoveFirst(st.receiving, Client(c)), last, curr), Some((c, WordBytes(curr.value) + Bye)))
  }

  /** The loop over a series of ready sockets: the final state, the replies
      in order, the stripped messages that became `lastWord` in order, and
      whether the program ended on the unbound `currWord`. */
  datatype Trace = Trace(final: State, replies: seq<(nat, Bytes)>, heard: seq<Bytes>, crashed: bool)

  function Run(st: State, events: seq<Event>): Trace
    decreases |events|
  {
    if events == [] then Trace(st, [], [], false)
    else match Next(st, events[0])
      case Unbound => Trace(st, [], [], true)
      case Served(n, reply) =>
        var t := Run(n, events[1..]);
        var took := if reply.Some? && events[0].Readable? && events[0].data != [] then [Text.StripBytes(events[0].data)] else [];
        Trace(t.final, (if reply.Some? then [reply.value] else []) + t.replies, took + t.heard, t.crashed)
  }

  /** A served read leaves the listener in front and `receiving` without
      repeats, and the client it served is gone from it: one exchange per
      connection. */
  lemma NextKeepsValid(st: State, e: Event)
    requires Valid(st) && Next(st, e).Served?
    ensures Valid(Next(st, e).next)
    ensures e.Readable? && Client(e.id) in st.receiving ==>
      Client(e.id) !in Next(st, e).next.receiving && Next(st, e).reply == Some((e.id, Next(st, e).reply.value.1))
  {
    var s := st.receiving;
    match e
    case Accepted(c) =>
      if Client(c) !in s {
        var r := s + [Client(c)];
        forall i, j | 0 <= i < j < |r|
          ensures r[i] != r[j]
        {
          if j == |s| {
            assert r[i] == s[i] && s[i] in s;
          } else {
            assert r[i] == s[i] && r[j] == s[j];
          }
        }
      }
    case Readable(c, data) =>
      if Client(c) in s {
        RemoveFirstNoDup(s, Client(c));
        assert s == [s[0]] + s[1..];
      }
  }

  /** The listener is never dropped: it leads `receiving` after any series
      of events. */
  lemma {:induction false} ListenerStays(st: State, events: seq<Event>)
    requires Valid(st)
    ensures Valid(Run(st, events).final)
    decreases |events|
  {
    if events != [] && Next(st, events[0]).Served? {
      NextKeepsValid(st, events[0]);
      ListenerStays(Next(st, events[0]).next, events[1..]);
    }
  }

  /** A client that sends something is given the previous `lastWord`, and
      its own message, stripped, takes its place. */
  lemma Swap(st: State, c: nat, data: Bytes)
    requires Client(c) in st.receiving && data != []
    ensures Next(st, Readable(c, data)).Served?
    ensures Next(st, Readable(c, data)).reply == Some((c, WordBytes(st.lastWord) + Bye))
    ensures Next(st, Readable(c, data)).next.lastWord == Raw(Text.StripBytes(data))
    ensures Next(st, Readable(c, data)).next.currWord == Some(st.lastWord)
  {
  }

  /** A client that sends nothing (it closed its end) gets the stale
      `currWord` and `lastWord` stays; before any client has spoken there is
      no `currWord` and the program ends. */
  lemma EmptyRead(st: State, c: nat)
    requires Client(c) in st.receiving
    ensures Next(st, Readable(c, [])).Unbound? <==> st.currWord.None?
    ensures st.currWord.Some? ==>
      Next(st, Readable(c, [])).reply == Some((c, WordBytes(st.currWord.value) + Bye))
      && Next(st, Readable(c, [])).next.lastWord == st.lastWord
  {
  }

  /** The first connection closing without a word ends the server. */
  lemma SilentFirstClientEndsServer(c: nat)
    ensures Run(Start, [Accepted(c), Readable(c, [])]).crashed
  {
    var n := Next(Start, Accepted(c)).next;
    assert n.receiving == [Listener, Client(c)];
    assert Next(n, Readable(c, [])).Unbound?;
    assert [Accepted(c), Readable(c, [])][1..] == [Readable(c, [])];
  }

  /** Each reply carries the message of the one before. */
  predicate Chained(replies: seq<(nat, Bytes)>, heard: seq<Bytes>, first: Word) {
    |replies| == |heard|
    && forall k :: 0 <= k < |replies| ==>
         replies[k].1 == (if k == 0 then WordBytes(first) else heard[k - 1]) + Bye
  }

  /** A reply in front of a chain that starts at its message. */
  lemma ChainCons(c: nat, first: Word, w: Bytes, replies: seq<(nat, Bytes)>, heard: seq<Bytes>)
    requires Chained(replies, heard, Raw(w))
    ensures Chained([(c, WordBytes(first) + Bye)] + replies, [w] + heard, first)
  {
    var r := [(c, WordBytes(first) + Bye)] + replies;
    var h := [w] + heard;
    forall k | 0 <= k < |r|
      ensures r[k].1 == (if k == 0 then WordBytes(first) else h[k - 1]) + Bye
    {
      if k > 0 {
        assert r[k] == replies[k - 1];
        if k > 1 {
          assert h[k - 1] == heard[k - 2];
        }
      }
    }
  }

  /** Unfolding `Run` once on a served read with something to say. */
  lemma RunSwap(st: State, events: seq<Event>)
    requires events != [] && events[0].Readable? && events[0].data != [] && Client(events[0].id) in st.receiving
    ensures var e := events[0];
      var t := Run(Next(st, e).next, events[1..]);
      Run(st, events) == Trace(t.final, [(e.id, WordBytes(st.lastWord) + Bye)] + t.replies, [Text.StripBytes(e.data)] + t.heard, t.crashed)
  {
    Swap(st, events[0].id, events[0].data);
  }

  /** When every client says something, the hops chain: the k-th reply is
      the starting `lastWord` for k = 0 and otherwise the (k-1)-th message
      heard, and `lastWord` ends as the last message heard. */
  lemma {:induction false} HopChain(st: State, events: seq<Event>)
    requires forall k :: 0 <= k < |events| && events[k].Readable? ==> events[k].data != []
    ensures !Run(st, events).crashed
    ensures Chained(Run(st, events).replies, Run(st, events).heard, st.lastWord)
    ensures Run(st, events).final.lastWord ==
      if Run(st, events).heard == [] then st.lastWord else Raw(Run(st, events).heard[|Run(st, events).heard| - 1])
    decreases |events|
  {
    if events != [] {
      var e := events[0];
      var o := Next(st, e);
      assert forall k :: 0 <= k < |events[1..]| ==> events[1..][k] == events[k + 1];
      if e.Readable? && Client(e.id) in st.receiving {
        RunSwap(st, events);
        var n := o.next;
        HopChain(n, events[1..]);
        var t := Run(n, events[1..]);
        ChainCons(e.id, st.lastWord, Text.StripBytes(e.data), t.replies, t.heard);
        assert t.heard != [] ==> ([Text.StripBytes(e.data)] + t.heard)[|t.heard|] == t.heard[|t.heard| - 1];
      } else {
        assert o.Served? && o.reply.None? && o.next.lastWord == st.lastWord;
        HopChain(o.next, events[1..]);
      }
    }
  }

  /** From the start, when every client speaks, the first one is answered
      "F1rst p0st". */
  lemma FirstPost(events: seq<Event>)
    requires forall k :: 0 <= k < |events| && events[k].Readable? ==> events[k].data != []
    requires Run(Start, events).replies != []
    ensures Run(Start, events).replies[0].1 == Utf8.Encode(FirstWord.text) + Bye
  {
    HopChain(Start, events);
  }

  /** The rest of a run continues what was already sent. */
  predicate Continues(whole: Trace, done: seq<(nat, Bytes)>, rest: Trace) {
    whole.final == rest.final && whole.crashed == rest.crashed && whole.replies == done + rest.replies
  }

  /** The server's variables, and the bytes written to each client (the two
      `sendall` calls of one answer as one entry). */
  class HopperServer {
    var receiving: seq<Sock>
    var lastWord: Word
    var currWord: Option<Word>
    var sent: seq<(nat, Bytes)>

    function Snapshot(): State
      reads this
    {
      State(receiving, lastWord, currWord)
    }

    /** The listener bound and appended to `receiving`. */
    constructor ()
      ensures Snapshot() == Start && sent == []
    {
      receiving := [Listener];
      lastWord := FirstWord;
      currWord := None;
      sent := [];
    }

    /** One ready socket. `crashed` is the `NameError`. */
    method Handle(e: Event) returns (crashed: bool)
      modifies this
      ensures crashed <==> Next(old(Snapshot()), e).Unbound?
      ensures !crashed ==> Snapshot() == Next(old(Snapshot()), e).next
      ensures !crashed ==> sent == old(sent) + (var r := Next(old(Snapshot()), e).reply; if r.Some? then [r.value] else [])
      ensures crashed ==> sent == old(sent)
    {
      crashed := false;
      match e
      case Accepted(c) =>
        if Client(c) !in receiving {
          receiving := receiving + [Client(c)];
        }
      case Readable(c, data) =>
        if Client(c) in receiving {
          if data != [] {
            currWord := Some(lastWord);
            lastWord := Raw(Text.StripBytes(data));
          }
          if currWord.None? {
            crashed := true;
            return;
          }
          var word := currWord.value;
          var out: Bytes;
          if word.Raw? {
            out := word.data;
          } else {
            out := Utf8.Encode(word.text);
          }
          sent := sent + [(c, out + Bye)];
          receiving := RemoveFirst(receiving, Client(c));
        }
    }

    /** The `while True` loop over the ready sockets, until the events end
        or the program does. */
    method Serve(events: seq<Event>) returns (crashed: bool)
      modifies this
      ensures crashed == Run(old(Snapshot()), events).crashed
      ensures sent == old(sent) + Run(old(Snapshot()), events).replies
      ensures !crashed ==> Snapshot() == Run(old(Snapshot()), events).final
    {
      ghost var whole := Run(Snapshot(), events);
      ghost var done: seq<(nat, Bytes)> := [];
      crashed := false;
      var i := 0;
      while i < |events| && !crashed
        invariant 0 <= i <= |events|
        invariant sent == old(sent) + done
        invariant !crashed ==> Continues(whole, done, Run(Snapshot(), events[i..]))
        invariant crashed ==> whole.crashed && whole.replies == done
        decreases |events| - i
      {
        ghost var st := Snapshot();
        ghost var o := Next(st, events[i]);
        assert events[i..][1..] == events[i + 1..];
        crashed := Handle(events[i]);
        if !crashed {
          ghost var step := if o.reply.Some? then [o.reply.value] else [];
          Assoc(done, step, Run(o.next, events[i + 1..]).replies);
          done := done + step;
        }
        i := i + 1;
      }
      if !crashed {
        assert events[i..] == [];
      }
    }
  }
}
