/** Reading back what `HttpResponse.__bytes__` writes: when the status is an
    `HTTPStatus`, the message and the field values carry no line breaks and
    no surrounding whitespace, the names carry no ':' and no line breaks,
    the body is `bytes` and the fields agree with the `body` setter,
    `get_http_response` on those bytes returns the same message. */
module HttpRoundTrip {
  import opened Base
  import opened Text
  import opened Fields
  import opened Http
  import opened HttpParse
  import Utf8

  predicate NoCrLf(s: string) {
    forall k :: 0 <= k < |s| ==> !IsCrLf(s[k])
  }

  /** The status line without its CRLF. */
  function StatusText(status: nat, msg: string): string {
    Version + " " + NatToString(status) + (if msg != [] then " " + msg else "")
  }

  /** A field line without its CRLF. */
  function FieldText(f: Field): string {
    f.0 + ": " + f.1
  }

  function FieldTexts(fs: seq<Field>): (r: seq<string>)
    ensures |r| == |fs| && forall k :: 0 <= k < |fs| ==> r[k] == FieldText(fs[k])
  {
    if fs == [] then [] else FieldTexts(fs[..|fs| - 1]) + [FieldText(fs[|fs| - 1])]
  }

  /** Text the parser gives back unchanged: no line break, and no whitespace
      at either end. */
  predicate Plain(s: string) {
    NoCrLf(s) && (s == [] || (!IsSpace(s[0]) && !IsSpace(s[|s| - 1])))
  }

  predicate GoodField(f: Field) {
    ':' !in f.0 && NoCrLf(f.0) && f.1 != [] && Plain(f.1)
  }

  /** The messages whose serialisation parses back to themselves. */
  predicate Parsable(m: Message) {
    && m.start.StatusLine?
    && KnownStatus(m.start.status)
    && Plain(m.start.msg)
    && (forall k :: 0 <= k < |m.headers| ==> GoodField(m.headers[k]))
    && m.body.BytesBody?
    && m.headers == WithBody(m.headers, m.body)
  }

  /** The head a response writes is its lines joined by CRLF, then a blank
      line. */
  lemma {:induction false} HeadJoin(first: string, fs: seq<Field>)
    ensures first + CrLf + FieldLines(fs) == Join([first] + FieldTexts(fs), CrLf) + CrLf
    decreases |fs|
  {
    if fs == [] {
      assert [first] + FieldTexts(fs) == [first];
    } else {
      var init := fs[..|fs| - 1];
      var f := fs[|fs| - 1];
      HeadJoin(first, init);
      var before := [first] + FieldTexts(init);
      var lines := before + [FieldText(f)];
      assert [first] + FieldTexts(fs) == lines;
      assert lines[..|lines| - 1] == before;
      assert Join(lines, CrLf) == Join(before, CrLf) + CrLf + FieldText(f);
      assert FieldLines(fs) == FieldLines(init) + (FieldText(f) + CrLf);
    }
  }

  /** Every CR is followed by LF and then by a character that is not a line
      break. */
  predicate CrSpaced(p: string) {
    forall j :: 0 <= j < |p| && p[j] == '\r' ==> j + 2 < |p| && !IsCrLf(p[j + 2])
  }

  /** Text made of non-empty lines without line breaks joined by CRLF is
      spaced that way, and starts and ends as its first and last lines. */
  lemma {:induction false} JoinSpacing(lines: seq<string>)
    requires |lines| >= 1
    requires forall k :: 0 <= k < |lines| ==> lines[k] != [] && NoCrLf(lines[k])
    ensures var p := Join(lines, CrLf);
      && p != []
      && p[0] == lines[0][0]
      && p[|p| - 1] == lines[|lines| - 1][|lines[|lines| - 1]| - 1]
      && CrSpaced(p)
    decreases |lines|
  {
    if |lines| > 1 {
      var init := lines[..|lines| - 1];
      var last := lines[|lines| - 1];
      JoinSpacing(init);
      var q := Join(init, CrLf);
      var p := Join(lines, CrLf);
      assert p == q + CrLf + last;
      forall j | 0 <= j < |p|
        ensures p[j] == '\r' ==> j + 2 < |p| && !IsCrLf(p[j + 2])
      {
        if j < |q| {
          assert p[j] == q[j];
          if q[j] == '\r' {
            assert p[j + 2] == q[j + 2];
          }
        } else if j == |q| {
          assert p[j + 2] == last[0];
        } else if j > |q| + 1 {
          assert p[j] == last[j - |q| - 2];
        }
      }
    }
  }

  /** CR LF CR LF starts at `j`. */
  predicate BlankAt(u: string, j: int) {
    0 <= j && j + 4 <= |u| && u[j..j + 4] == "\r\n\r\n"
  }

  /** The blank line is found where the head text ends. */
  lemma NoEarlyBlankLine(p: string)
    requires CrSpaced(p)
    ensures BlankAt(p + "\r\n\r\n", |p|)
    ensures forall j :: 0 <= j < |p| ==> !BlankAt(p + "\r\n\r\n", j)
  {
    var u := p + "\r\n\r\n";
    assert u[|p|..|p| + 4] == "\r\n\r\n";
    forall j | 0 <= j < |p|
      ensures !BlankAt(u, j)
    {
      if p[j] == '\r' {
        assert u[j + 2] == p[j + 2];
      } else {
        assert u[j] == p[j];
      }
    }
  }

  /** Bytes below 0x80 at the front of an encoding are the characters
      themselves. */
  lemma {:induction false} AsciiPrefix(u: string, p: string)
    requires Utf8.AllAscii(p) && |p| <= |Utf8.Encode(u)|
    requires forall k :: 0 <= k < |p| ==> Utf8.Encode(u)[k] == p[k] as int
    ensures |p| <= |u| && u[..|p|] == p
    decreases |p|
  {
    if p != [] {
      assert u != [];
      Utf8.AsciiFront(u);
      var e := Utf8.Encode(u);
      var e1 := Utf8.Encode(u[1..]);
      assert e == [u[0] as int] + e1;
      forall k | 0 <= k < |p[1..]|
        ensures e1[k] == p[1..][k] as int
      {
        assert e1[k] == e[k + 1];
      }
      AsciiPrefix(u[1..], p[1..]);
      assert u[..|p|] == [u[0]] + u[1..][..|p| - 1];
    }
  }

  lemma TerminatorText()
    ensures Utf8.Encode("\r\n\r\n") == Terminator
    ensures Utf8.AllAscii("\r\n\r\n")
  {
    var t := "\r\n\r\n";
    assert Utf8.Encode(t[3..]) == [10];
    assert Utf8.Encode(t[2..]) == [13] + Utf8.Encode(t[3..]);
    assert Utf8.Encode(t[1..]) == [10] + Utf8.Encode(t[2..]);
  }

  /** No CR LF CR LF starts inside the encoding of the first character
      when the text does not start with CR LF CR LF. */
  lemma NoTerminatorInFirstChar(u: string, rest: Bytes)
    requires |u| >= 4 && !BlankAt(u, 0)
    requires rest == Utf8.Encode(u[1..])
    ensures forall i :: 0 <= i < |Utf8.EncodeChar(u[0])| ==>
      !OccursAt(Utf8.EncodeChar(u[0]) + rest, Terminator, i)
  {
    var a := Utf8.EncodeChar(u[0]);
    var x := a + rest;
    assert x == Utf8.Encode(u);
    forall i | 0 <= i < |a|
      ensures !OccursAt(x, Terminator, i)
    {
      if !Utf8.IsAscii(u[0]) {
        assert x[i] == a[i];
      } else if OccursAt(x, Terminator, 0) {
        TerminatorText();
        AsciiPrefix(u, "\r\n\r\n");
        assert false;
      }
    }
  }

  /** A text that starts with CR LF CR LF encodes to bytes that do. */
  lemma TerminatorAtFront(u: string, b: Bytes)
    requires BlankAt(u, 0)
    ensures Find(Utf8.Encode(u) + b, Terminator) == 0
  {
    TerminatorText();
    assert u == u[..4] + u[4..];
    Utf8.EncodeAppend(u[..4], u[4..]);
    assert (Utf8.Encode(u) + b)[0..4] == Terminator;
  }

  /** Dropping the first character moves the first blank line one place
      to the left. */
  lemma BlankAfterFirst(u: string, n: nat)
    requires n > 0 && BlankAt(u, n)
    requires forall j :: 0 <= j < n ==> !BlankAt(u, j)
    ensures BlankAt(u[1..], n - 1)
    ensures forall j :: 0 <= j < n - 1 ==> !BlankAt(u[1..], j)
  {
    forall j | 0 <= j < n - 1
      ensures !BlankAt(u[1..], j)
    {
      assert !BlankAt(u, j + 1);
      assert u[1..][j..j + 4] == u[j + 1..j + 1 + 4];
    }
    assert u[1..][n - 1..n - 1 + 4] == u[n..n + 4];
  }

  /** Whatever follows the text, no CR LF CR LF starts inside the encoding
      of its first character. */
  lemma FirstCharClear(u: string, b: Bytes)
    requires |u| >= 5 && !BlankAt(u, 0)
    ensures forall i :: 0 <= i < |Utf8.EncodeChar(u[0])| ==>
      !OccursAt(Utf8.EncodeChar(u[0]) + (Utf8.Encode(u[1..]) + b), Terminator, i)
  {
    var a := Utf8.EncodeChar(u[0]);
    var e1 := Utf8.Encode(u[1..]);
    NoTerminatorInFirstChar(u, e1);
    forall i | 0 <= i < |a|
      ensures !OccursAt(a + (e1 + b), Terminator, i)
    {
      assert !OccursAt(a + e1, Terminator, i);
      assert (a + (e1 + b))[i..i + 4] == (a + e1)[i..i + 4];
    }
  }

  /** The encoding of the first `n` characters is that of the first one
      followed by that of the next `n - 1`. */
  lemma EncodePrefixFront(u: string, n: nat)
    requires 0 < n <= |u|
    ensures Utf8.Encode(u[..n]) == Utf8.EncodeChar(u[0]) + Utf8.Encode(u[1..][..n - 1])
  {
    assert u[..n][0] == u[0];
    assert u[..n][1..] == u[1..][..n - 1];
  }

  /** The byte search for CR LF CR LF in an encoded text finds the encoding
      of the first CR LF CR LF of the text. */
  lemma {:induction false} FindInEncoded(u: string, b: Bytes, n: nat)
    requires BlankAt(u, n)
    requires forall j :: 0 <= j < n ==> !BlankAt(u, j)
    ensures Find(Utf8.Encode(u) + b, Terminator) == |Utf8.Encode(u[..n])|
    decreases n
  {
    if n == 0 {
      TerminatorAtFront(u, b);
      assert u[..0] == [];
    } else {
      var a := Utf8.EncodeChar(u[0]);
      var rest := Utf8.Encode(u[1..]) + b;
      assert Utf8.Encode(u) + b == a + rest;
      BlankAfterFirst(u, n);
      FindInEncoded(u[1..], b, n - 1);
      FirstCharClear(u, b);
      FindAfterPrefix(a, rest, Terminator);
      EncodePrefixFront(u, n);
    }
  }

  /** `split(maxsplit=2)` of a status line that `_header_repr` wrote gives
      back the version, the code and the message. */
  lemma StatusLineWords(status: nat, msg: string, n: nat)
    requires msg == [] || !IsSpace(msg[0])
    requires n == 2
    ensures SplitWhitespace(StatusText(status, msg), n) ==
      [Version, NatToString(status)] + (if msg != [] then [msg] else [])
  {
    var d := NatToString(status);
    var tail := if msg != [] then " " + msg else "";
    var t := " " + (d + tail);
    assert StatusText(status, msg) == Version + t;
    DigitsAreWord(d);
    CodeAndMessage(d, msg, tail);
    VersionIsWord();
    LineWords(Version, t, d, if msg != [] then [msg] else [], n);
  }

  /** A word `v`, then text starting with a space that splits into `d` and
      the rest with one split fewer: `v`, `d` and the rest. */
  lemma LineWords(v: string, t: string, d: string, m: seq<string>, n: nat)
    requires v != [] && forall k :: 0 <= k < |v| ==> !IsSpace(v[k])
    requires t != [] && t[0] == ' ' && n > 0
    requires SplitWhitespace(t, n - 1) == [d] + m
    ensures SplitWhitespace(v + t, n) == [v, d] + m
  {
    SplitWordFront(v, t, n);
    PairFront(v, d, m);
  }

  lemma PairFront<T>(a: T, b: T, m: seq<T>)
    ensures [a] + ([b] + m) == [a, b] + m
  {
  }

  /** After the version, the code and the message are the remaining words. */
  lemma CodeAndMessage(d: string, msg: string, tail: string)
    requires d != [] && forall k :: 0 <= k < |d| ==> !IsSpace(d[k])
    requires msg == [] || !IsSpace(msg[0])
    requires tail == if msg != [] then " " + msg else ""
    ensures SplitWhitespace(" " + (d + tail), 1) == [d] + (if msg != [] then [msg] else [])
  {
    var m := if msg != [] then [msg] else [];
    assert SplitWhitespace(" " + (d + tail), 1) == SplitWhitespace(d + tail, 1) by {
      assert (d + tail)[0] == d[0];
      SplitAfterSpace(d + tail, 1);
    }
    assert SplitWhitespace(d + tail, 1) == [d] + SplitWhitespace(tail, 0) by {
      assert tail == [] || tail[0] == ' ';
      SplitWordFront(d, tail, 1);
    }
    assert SplitWhitespace(tail, 0) == m by {
      TailWords(msg);
    }
  }

  lemma VersionIsWord()
    ensures Version != [] && forall k :: 0 <= k < |Version| ==> !IsSpace(Version[k])
  {
  }

  lemma DigitsAreWord(d: string)
    requires d != [] && AllDigits(d)
    ensures forall k :: 0 <= k < |d| ==> !IsSpace(d[k])
  {
  }

  lemma TailWords(msg: string)
    requires msg == [] || !IsSpace(msg[0])
    ensures SplitWhitespace(if msg != [] then " " + msg else "", 0) == if msg != [] then [msg] else []
  {
    if msg != [] {
      SplitAfterSpace(msg, 0);
      assert TrimLeft(msg, IsSpace) == msg;
    }
  }

  /** The status line parses back to the status and the message. */
  lemma StatusFieldsOfText(status: nat, msg: string)
    requires KnownStatus(status) && Plain(msg)
    ensures StatusFields(StatusText(status, msg)) == Ok((status, msg))
  {
    StatusLineWords(status, msg, 2);
    ParseNatToString(status);
    StatusFieldsOfWords(StatusText(status, msg), NatToString(status), status, msg);
  }

  /** The status line handling applied to a line whose words are known. */
  lemma StatusFieldsOfWords(line: string, d: string, status: nat, msg: string)
    requires KnownStatus(status) && ParseInt(d) == Some(status)
    requires SplitWhitespace(line, 2) == [Version, d] + (if msg != [] then [msg] else [])
    ensures StatusFields(line) == Ok((status, msg))
  {
    var comps := SplitWhitespace(line, 2);
    assert comps[1] == d;
    assert |comps| == 3 <==> msg != [];
    assert msg != [] ==> comps[2] == msg;
  }

  /** A field line splits back into its name and its value. */
  lemma LineFieldOfText(f: Field)
    requires GoodField(f)
    ensures ':' in FieldText(f) && LineField(FieldText(f)) == f
  {
    var line := FieldText(f);
    assert line == f.0 + [':'] + (" " + f.1);
    SplitOnceFirst(f.0, " " + f.1, ':');
    TrimLeftSkips(" ", f.1, IsSpace);
    StripUntouched(f.1);
    assert TrimLeft(" " + f.1, IsSpace) == f.1;
  }

  /** A field's name is not among the names before it. */
  lemma FreshName(fs: Dict, k: nat)
    requires k < |fs|
    ensures !Has(fs[..k], fs[k].0)
  {
    forall j | 0 <= j < k
      ensures fs[..k][j].0 != fs[k].0
    {
      assert fs[..k][j] == fs[j];
    }
  }

  /** One turn of the header loop on a field line with a new name appends
      the field. */
  lemma CollectStep(lines: seq<string>, acc: Dict, f: Field)
    requires lines != [] && lines[0] == FieldText(f) && GoodField(f)
    requires !Has(acc, f.0)
    ensures UniqueNames(acc + [f])
    ensures CollectFields(lines, acc) == CollectFields(lines[1..], acc + [f])
  {
    LineFieldOfText(f);
    var next := Set(acc, f.0, f.1);
    assert next == acc + [(f.0, f.1)];
  }

  lemma PrefixStep<T>(s: seq<T>, k: nat)
    requires k < |s|
    ensures s[..k] + [s[k]] == s[..k + 1]
  {
  }

  /** The header loop over the lines `__bytes__` wrote rebuilds the fields
      in their order: from line `k` on, starting with the fields before it. */
  lemma {:induction false} CollectFieldTexts(fs: Dict, k: nat)
    requires k <= |fs|
    requires forall j :: 0 <= j < |fs| ==> GoodField(fs[j])
    ensures CollectFields(FieldTexts(fs)[k..], fs[..k]) == Ok(fs)
    decreases |fs| - k
  {
    var lines := FieldTexts(fs)[k..];
    if k == |fs| {
      assert fs[..k] == fs;
      assert lines == [];
    } else {
      var f := fs[k];
      assert GoodField(f) && lines[0] == FieldText(f);
      assert CollectFields(lines, fs[..k]) == CollectFields(lines[1..], fs[..k] + [f]) by {
        FreshName(fs, k);
        CollectStep(lines, fs[..k], f);
      }
      assert fs[..k] + [f] == fs[..k + 1] by {
        PrefixStep(fs, k);
      }
      assert lines[1..] == FieldTexts(fs)[k + 1..];
      CollectFieldTexts(fs, k + 1);
    }
  }

  /** The lines of the head text of a parsable message. */
  function HeadLines(m: Message): seq<string>
    requires m.start.StatusLine?
  {
    [StatusText(m.start.status, m.start.msg)] + FieldTexts(m.headers)
  }

  lemma NoCrLfAppend(a: string, b: string)
    requires NoCrLf(a) && NoCrLf(b)
    ensures NoCrLf(a + b)
  {
    forall k | 0 <= k < |a + b|
      ensures !IsCrLf((a + b)[k])
    {
      if k >= |a| {
        assert (a + b)[k] == b[k - |a|];
      }
    }
  }

  /** A status line is non-empty, has no line break and no whitespace at
      its ends. */
  lemma StatusTextPlain(status: nat, msg: string)
    requires Plain(msg)
    ensures var s := StatusText(status, msg);
      s != [] && NoCrLf(s) && !IsSpace(s[0]) && !IsSpace(s[|s| - 1])
  {
    var d := NatToString(status);
    var tail := if msg != [] then " " + msg else "";
    var s := StatusText(status, msg);
    assert s == Version + " " + d + tail;
    assert NoCrLf(Version + " ");
    assert NoCrLf(d) && NoCrLf(tail);
    NoCrLfAppend(Version + " ", d);
    NoCrLfAppend(Version + " " + d, tail);
    assert s[0] == 'H';
    if msg != [] {
      assert s[|s| - 1] == msg[|msg| - 1];
    } else {
      assert s[|s| - 1] == d[|d| - 1];
    }
  }

  /** So is a field line. */
  lemma FieldTextPlain(f: Field)
    requires GoodField(f)
    ensures var s := FieldText(f); s != [] && NoCrLf(s) && !IsSpace(s[|s| - 1])
  {
    var s := FieldText(f);
    assert NoCrLf(": ");
    NoCrLfAppend(f.0, ": ");
    NoCrLfAppend(f.0 + ": ", f.1);
    assert s[|s| - 1] == f.1[|f.1| - 1];
  }

  lemma HeadLinesPlain(m: Message)
    requires Parsable(m)
    ensures forall k :: 0 <= k < |HeadLines(m)| ==> HeadLines(m)[k] != [] && NoCrLf(HeadLines(m)[k])
    ensures !IsSpace(HeadLines(m)[0][0])
    ensures var last := HeadLines(m)[|HeadLines(m)| - 1]; !IsSpace(last[|last| - 1])
  {
    var lines := HeadLines(m);
    StatusTextPlain(m.start.status, m.start.msg);
    forall k | 1 <= k < |lines|
      ensures lines[k] != [] && NoCrLf(lines[k])
    {
      FieldTextPlain(m.headers[k - 1]);
    }
    if |lines| > 1 {
      FieldTextPlain(m.headers[|m.headers| - 1]);
    }
  }

  /** The head text of a status response is its lines joined by CRLF and
      the blank line. */
  lemma HeadTextJoined(m: Message)
    requires m.start.StatusLine?
    ensures HeadText(m) == Join(HeadLines(m), CrLf) + "\r\n\r\n"
  {
    var first := StatusText(m.start.status, m.start.msg);
    HeadJoin(first, m.headers);
    assert HeaderRepr(m.start) == first + CrLf;
    assert HeadText(m) == first + CrLf + FieldLines(m.headers) + CrLf;
  }

  /** The head lines of a parsable message, joined, have no whitespace at
      their ends and a CR only before an LF. */
  lemma JoinedHeadPlain(m: Message)
    requires Parsable(m)
    ensures var p := Join(HeadLines(m), CrLf); Strip(p) == p && CrSpaced(p)
  {
    var lines := HeadLines(m);
    HeadLinesPlain(m);
    JoinSpacing(lines);
    StripUntouched(Join(lines, CrLf));
  }

  /** The head text of a parsable message is its lines joined by CRLF and
      the blank line, and it has no whitespace at its ends. */
  lemma HeadTextOfParsable(m: Message)
    requires Parsable(m)
    ensures var p := Join(HeadLines(m), CrLf);
      && HeadText(m) == p + "\r\n\r\n"
      && Strip(p) == p
      && CrSpaced(p)
  {
    HeadTextJoined(m);
    JoinedHeadPlain(m);
  }

  /** The bytes `__bytes__` writes for a parsable message are the encoded
      head lines joined by CRLF, the blank line, and the body; the first
      CRLF CRLF in them is the blank line. */
  lemma SerializedLayout(m: Message)
    requires Parsable(m)
    ensures var p := Join(HeadLines(m), CrLf);
      && Serialize(m) == Utf8.Encode(p) + Terminator + m.body.raw
      && Find(Serialize(m), Terminator) == |Utf8.Encode(p)|
      && Strip(p) == p
  {
    var p := Join(HeadLines(m), CrLf);
    assert HeadText(m) == p + "\r\n\r\n" && Strip(p) == p && CrSpaced(p) by {
      HeadTextOfParsable(m);
    }
    EncodedHead(p, m.body.raw);
  }

  /** A head text followed by the blank line, encoded, then a body: the
      first CRLF CRLF is the blank line. */
  lemma EncodedHead(p: string, body: Bytes)
    requires CrSpaced(p)
    ensures Utf8.Encode(p + "\r\n\r\n") + body == Utf8.Encode(p) + Terminator + body
    ensures Find(Utf8.Encode(p + "\r\n\r\n") + body, Terminator) == |Utf8.Encode(p)|
  {
    var u := p + "\r\n\r\n";
    NoEarlyBlankLine(p);
    assert u[..|p|] == p;
    FindInEncoded(u, body, |p|);
    Utf8.EncodeAppend(p, "\r\n\r\n");
    TerminatorText();
  }

  /** The head of a parsable message's bytes, followed by any chunks, splits
      into its lines and the body. */
  lemma SplitHeadOfSerialized(m: Message, more: seq<Bytes>)
    requires Parsable(m)
    ensures SplitHead([Serialize(m)] + more) == Ok(Head(HeadLines(m), m.body.raw, more))
  {
    SerializedLayout(m);
    HeadLinesPlain(m);
    SplitHeadOfLines(Serialize(m), more, HeadLines(m), m.body.raw);
  }

  /** Bytes made of the encoded head lines joined by CRLF, the blank line
      and a body split back into those lines and that body. */
  lemma SplitHeadOfLines(data: Bytes, more: seq<Bytes>, lines: seq<string>, body: Bytes)
    requires |lines| >= 1 && forall k :: 0 <= k < |lines| ==> NoCrLf(lines[k])
    requires var p := Join(lines, CrLf);
      data == Utf8.Encode(p) + Terminator + body && Find(data, Terminator) == |Utf8.Encode(p)| && Strip(p) == p
    ensures SplitHead([data] + more) == Ok(Head(lines, body, more))
  {
    var p := Join(lines, CrLf);
    var e := |Utf8.Encode(p)|;
    assert data[..e] == Utf8.Encode(p) && data[e + 4..] == body;
    Utf8.DecodeEncode(p);
    assert Split(p, CrLf) == lines by {
      forall k, j | 0 <= k < |lines| && 0 <= j < |lines[k]|
        ensures lines[k][j] != CrLf[0]
      {
        assert !IsCrLf(lines[k][j]);
      }
      SplitJoin(lines, CrLf);
    }
    SplitHeadAt(data, more, e, p, lines, body);
  }

  /** `receive_head` on a first chunk whose first CRLF CRLF is at `e` and
      whose text before it is `p`. */
  lemma SplitHeadAt(data: Bytes, more: seq<Bytes>, e: nat, p: string, lines: seq<string>, body: Bytes)
    requires Find(data, Terminator) == e && e + 4 <= |data|
    requires Utf8.Decode(data[..e]) == Some(p) && Strip(p) == p && Split(p, CrLf) == lines
    requires data[e + 4..] == body
    ensures SplitHead([data] + more) == Ok(Head(lines, body, more))
  {
    var chunks := [data] + more;
    assert chunks[0] == data && chunks[1..] == more;
    assert HasTerminator(data);
    assert HeadChunk(chunks) == Some(0);
    assert SplitHead(chunks) == Ok(Head(Split(Strip(p), CrLf), data[e + 4..], chunks[1..]));
  }

  /** The field lines of a parsable message give back its fields. */
  lemma FieldsOfParsable(m: Message)
    requires Parsable(m)
    ensures CollectFields(HeadLines(m)[1..], []) == Ok(m.headers)
  {
    var h := m.headers;
    assert HeadLines(m)[1..] == FieldTexts(h)[0..];
    assert h[..0] == [];
    CollectFieldTexts(h, 0);
  }

  /** The body that follows the head of a parsable message is taken whole:
      its `Content-Length`, when present, is its length. */
  lemma BodyOfParsable(m: Message, more: seq<Bytes>)
    requires Parsable(m)
    ensures BodyFor(m.headers, Head(HeadLines(m), m.body.raw, more)) == Ok(m.body.raw)
  {
    var raw := m.body.raw;
    if Has(m.headers, ContentLength) {
      assert GetOrEmpty(m.headers, ContentLength) == NatToString(|raw|);
      ParseNatToString(|raw|);
    }
  }

  /** Parsing the output of `HttpResponse.__bytes__`, received by one
      `recv`, recovers the status, the message, the fields in their order
      and the body, whatever chunks arrive after it. */
  lemma ResponseRoundTrip(m: Message, more: seq<Bytes>)
    requires Parsable(m)
    requires |Serialize(m)| <= RecvBufferSize && FromRecv(more)
    ensures ReadResponse([Serialize(m)] + more) == Ok(m)
  {
    SplitHeadOfSerialized(m, more);
    StatusFieldsOfText(m.start.status, m.start.msg);
    FieldsOfParsable(m);
    BodyOfParsable(m, more);
  }

  /** Each `recv` replaces the data, so a blank line that arrives split over
      two chunks is never seen, though the bytes received hold it. */
  lemma SplitBlankLineIsMissed()
    ensures HasTerminator(Concat([[13, 10], [13, 10]]))
    ensures ReadResponse([[13, 10], [13, 10]]) == Err(HeadNeverEnds)
  {
    var chunks: seq<Bytes> := [[13, 10], [13, 10]];
    assert Concat(chunks) == Terminator;
    assert OccursAt(Concat(chunks), Terminator, 0);
    assert !HasTerminator(chunks[0]) && !HasTerminator(chunks[1]);
  }
}
