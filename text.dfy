/** The string and bytes operations of Python's built-in types that the
    modelled code relies on: `isspace`, `strip`, `find`, `split`, `int()`
    and the decimal rendering of an `int`. */
module Text {
  import opened Base

  /** Python's `str.isspace` for one character: the ASCII controls TAB to CR,
      the separators 0x1C to 0x1F, SPACE, NEL, NO-BREAK SPACE and the Unicode
      space separators. */
  predicate IsSpace(c: char) {
    var n := c as int;
    (9 <= n <= 13) || (0x1C <= n <= 0x20) || n == 0x85 || n == 0xA0 || n == 0x1680
    || (0x2000 <= n <= 0x200A) || n == 0x2028 || n == 0x2029 || n == 0x202F
    || n == 0x205F || n == 0x3000
  }

  /** Python's `bytes.isspace` for one byte: space, TAB, LF, CR, VT and FF. */
  predicate IsByteSpace(b: byte) {
    b == 32 || (9 <= b <= 13)
  }

  predicate IsCrLf(c: char) {
    c == '\r' || c == '\n'
  }

  /** Drops the leading elements that satisfy `drop`. */
  function TrimLeft<T>(s: seq<T>, drop: T -> bool): (r: seq<T>)
    ensures |r| <= |s| && r == s[|s| - |r|..]
    ensures r == [] || !drop(r[0])
    ensures forall k :: 0 <= k < |s| - |r| ==> drop(s[k])
  {
    if s != [] && drop(s[0]) then TrimLeft(s[1..], drop) else s
  }

  /** Drops the trailing elements that satisfy `drop`. */
  function TrimRight<T>(s: seq<T>, drop: T -> bool): (r: seq<T>)
    ensures |r| <= |s| && r == s[..|r|]
    ensures r == [] || !drop(r[|r| - 1])
    ensures forall k :: |r| <= k < |s| ==> drop(s[k])
  {
    if s != [] && drop(s[|s| - 1]) then TrimRight(s[..|s| - 1], drop) else s
  }

  /** Python's `str.strip()`. */
  function Strip(s: string): string {
    TrimRight(TrimLeft(s, IsSpace), IsSpace)
  }

  /** Python's `bytes.strip()`. */
  function StripBytes(b: Bytes): Bytes {
    TrimRight(TrimLeft(b, IsByteSpace), IsByteSpace)
  }

  /** Trimming on the right only reaches into the last part of a
      concatenation when that part is all whitespace. */
  lemma {:induction false} TrimRightAppend<T>(a: seq<T>, b: seq<T>, drop: T -> bool)
    requires TrimRight(b, drop) != []
    ensures TrimRight(a + b, drop) == a + TrimRight(b, drop)
    decreases |b|
  {
    if b != [] && drop(b[|b| - 1]) {
      assert (a + b)[..|a + b| - 1] == a + b[..|b| - 1];
      TrimRightAppend(a, b[..|b| - 1], drop);
    }
  }

  /** Trimming whitespace off a string that does not begin with any leaves it
      unchanged; and a string of whitespace is dropped as a whole. */
  lemma {:induction false} TrimLeftSkips<T>(w: seq<T>, t: seq<T>, drop: T -> bool)
    requires forall k :: 0 <= k < |w| ==> drop(w[k])
    requires t == [] || !drop(t[0])
    ensures TrimLeft(w + t, drop) == t
    decreases |w|
  {
    if w != [] {
      assert (w + t)[1..] == w[1..] + t;
      TrimLeftSkips(w[1..], t, drop);
    }
  }

  predicate OccursAt<T(==)>(s: seq<T>, pat: seq<T>, i: int) {
    0 <= i && i + |pat| <= |s| && s[i..i + |pat|] == pat
  }

  /** Python's `find`: the least index at or after `from` where `pat` occurs,
      or -1 when there is none. */
  function FindFrom<T(==)>(s: seq<T>, pat: seq<T>, from: nat): (r: int)
    ensures r == -1 || (from <= r && OccursAt(s, pat, r))
    ensures forall i :: from <= i && (r == -1 || i < r) ==> !OccursAt(s, pat, i)
    decreases |s| - from
  {
    if from + |pat| > |s| then -1
    else if s[from..from + |pat|] == pat then from
    else FindFrom(s, pat, from + 1)
  }

  function Find<T(==)>(s: seq<T>, pat: seq<T>): int {
    FindFrom(s, pat, 0)
  }

  /** The first occurrence of `pat` in `a + x`, when `a` holds none that
      starts inside it, is found in `x` and shifted by `|a|`. */
  lemma FindAfterPrefix<T>(a: seq<T>, x: seq<T>, pat: seq<T>)
    requires forall i :: 0 <= i < |a| ==> !OccursAt(a + x, pat, i)
    ensures Find(a + x, pat) == if Find(x, pat) == -1 then -1 else |a| + Find(x, pat)
  {
    var r, q := Find(a + x, pat), Find(x, pat);
    forall k | 0 <= k
      ensures OccursAt(a + x, pat, |a| + k) <==> OccursAt(x, pat, k)
    {
      if k + |pat| <= |x| {
        var y := (a + x)[|a| + k..|a| + k + |pat|];
        forall i | 0 <= i < |pat| ensures y[i] == x[k + i] { }
        assert y == x[k..k + |pat|];
      }
    }
    if q != -1 {
      assert OccursAt(a + x, pat, |a| + q);
    }
    if r != -1 {
      assert OccursAt(x, pat, r - |a|);
    }
  }

  /** Joins `parts` with `sep` between neighbours (Python's `sep.join`). */
  function Join<T>(parts: seq<seq<T>>, sep: seq<T>): seq<T> {
    if |parts| == 0 then []
    else if |parts| == 1 then parts[0]
    else Join(parts[..|parts| - 1], sep) + sep + parts[|parts| - 1]
  }

  /** Python's `str.split(sep)`: at least one part, and joining the parts with
      `sep` gives the input back. */
  function Split<T(==)>(s: seq<T>, sep: seq<T>): (r: seq<seq<T>>)
    requires |sep| > 0
    ensures |r| >= 1
    decreases |s|
  {
    var i := Find(s, sep);
    if i < 0 then [s] else [s[..i]] + Split(s[i + |sep|..], sep)
  }

  lemma {:induction false} JoinFront<T>(p: seq<T>, parts: seq<seq<T>>, sep: seq<T>)
    requires |parts| >= 1
    ensures Join([p] + parts, sep) == p + sep + Join(parts, sep)
    decreases |parts|
  {
    var q := [p] + parts;
    var last := parts[|parts| - 1];
    assert q[..|q| - 1] == [p] + parts[..|parts| - 1] && q[|q| - 1] == last;
    if |parts| > 1 {
      var init := parts[..|parts| - 1];
      JoinFront(p, init, sep);
      assert Join(parts, sep) == Join(init, sep) + sep + last;
    } else {
      assert q[..|q| - 1] == [p];
    }
  }

  lemma OccursAtHead<T>(s: seq<T>, pat: seq<T>, i: int)
    requires |pat| > 0 && OccursAt(s, pat, i)
    ensures s[i] == pat[0]
  {
    assert s[i..i + |pat|][0] == s[i];
  }

  /** Splitting a join gives the parts back when no part holds the first
      element of the separator. */
  lemma {:induction false} SplitJoin<T>(parts: seq<seq<T>>, sep: seq<T>)
    requires |sep| > 0 && |parts| >= 1
    requires forall k, j :: 0 <= k < |parts| && 0 <= j < |parts[k]| ==> parts[k][j] != sep[0]
    ensures Split(Join(parts, sep), sep) == parts
    decreases |parts|
  {
    var p := parts[0];
    if |parts| == 1 {
      assert Join(parts, sep) == p;
      forall i | 0 <= i
        ensures !OccursAt(p, sep, i)
      {
        if OccursAt(p, sep, i) { OccursAtHead(p, sep, i); }
      }
    } else {
      forall i | 0 <= i < |p|
        ensures !OccursAt(p + sep + Join(parts[1..], sep), sep, i)
      {
        if OccursAt(p + sep + Join(parts[1..], sep), sep, i) {
          OccursAtHead(p + sep + Join(parts[1..], sep), sep, i);
        }
      }
      var rest := Join(parts[1..], sep);
      JoinFront(p, parts[1..], sep);
      assert [p] + parts[1..] == parts;
      var s := p + sep + rest;
      assert OccursAt(s, sep, |p|) by { assert s[|p|..|p| + |sep|] == sep; }
      assert Find(s, sep) == |p|;
      assert s[..|p|] == p;
      assert s[|p| + |sep|..] == rest;
      SplitJoin(parts[1..], sep);
    }
  }

  /** Python's `line.split(sep, 1)` unpacked into two names: the text before
      the first `sep` and the text after it; `None` stands for the ValueError
      raised when `sep` does not occur. */
  function SplitOnce(line: string, sep: char): (r: Option<(string, string)>)
    ensures r.None? <==> sep !in line
    ensures r.Some? ==> line == r.value.0 + [sep] + r.value.1 && sep !in r.value.0
  {
    var i := Find(line, [sep]);
    if i < 0 then
      assert forall k :: 0 <= k < |line| ==> OccursAt(line, [sep], k) == (line[k] == sep);
      None
    else
      assert forall k :: 0 <= k < i ==> OccursAt(line, [sep], k) == (line[k] == sep);
      assert line[i..i + 1] == [sep];
      assert line[i] == sep;
      Some((line[..i], line[i + 1..]))
  }

  /** `split(sep, 1)` cuts at the first `sep`. */
  lemma SplitOnceFirst(a: string, b: string, sep: char)
    requires sep !in a
    ensures SplitOnce(a + [sep] + b, sep) == Some((a, b))
  {
    var line := a + [sep] + b;
    forall i | 0 <= i < |a|
      ensures !OccursAt(line, [sep], i)
    {
      assert line[i..i + 1] == [a[i]];
    }
    assert line[|a|..|a| + 1] == [sep];
    assert OccursAt(line, [sep], |a|);
    var r := FindFrom(line, [sep], 0);
    assert r != -1 && r <= |a|;
    assert Find(line, [sep]) == |a|;
    assert line[..|a|] == a && line[|a| + 1..] == b;
  }

  /** `strip()` leaves text alone that has no whitespace at its ends. */
  lemma StripUntouched(s: string)
    requires s != [] && !IsSpace(s[0]) && !IsSpace(s[|s| - 1])
    ensures Strip(s) == s
  {
    assert TrimLeft(s, IsSpace) == s;
    assert TrimRight(s, IsSpace) == s;
  }

  /** The longest prefix of `s` without whitespace. */
  function TakeWord(s: string): (w: string)
    ensures |w| <= |s| && w == s[..|w|]
    ensures forall k :: 0 <= k < |w| ==> !IsSpace(w[k])
    ensures |w| == |s| || IsSpace(s[|w|])
  {
    if s == [] || IsSpace(s[0]) then [] else [s[0]] + TakeWord(s[1..])
  }

  /** A word as `split()` yields it: non-empty, not starting with whitespace. */
  predicate IsWord(x: string) {
    x != [] && !IsSpace(x[0])
  }

  lemma WordStart(s: string)
    ensures var t := TrimLeft(s, IsSpace); var w := TakeWord(t);
      t != [] ==> IsWord(t) && IsWord(w) && |w| <= |t| && |t[|w|..]| < |s|
  {
    var t := TrimLeft(s, IsSpace);
    if t != [] {
      assert TakeWord(t) == [t[0]] + TakeWord(t[1..]);
    }
  }

  /** Python's `s.split(maxsplit=m)`: whitespace-separated words, at most
      `m` splits, the last part keeping the rest of the line (its trailing
      whitespace included). */
  function SplitWhitespace(s: string, maxsplit: nat): (r: seq<string>)
    ensures forall k :: 0 <= k < |r| ==> IsWord(r[k])
    ensures |r| <= maxsplit + 1
    decreases |s|
  {
    WordStart(s);
    var t := TrimLeft(s, IsSpace);
    if t == [] then []
    else if maxsplit == 0 then [t]
    else
      var w := TakeWord(t);
      var rest := SplitWhitespace(t[|w|..], maxsplit - 1);
      ConsWords(w, rest);
      [w] + rest
  }

  lemma ConsWords(w: string, rest: seq<string>)
    requires IsWord(w) && forall k :: 0 <= k < |rest| ==> IsWord(rest[k])
    ensures forall k :: 0 <= k < |[w] + rest| ==> IsWord(([w] + rest)[k])
  {
  }

  lemma {:induction false} TakeWordPrefix(w: string, t: string)
    requires forall k :: 0 <= k < |w| ==> !IsSpace(w[k])
    requires t == [] || IsSpace(t[0])
    ensures TakeWord(w + t) == w
    decreases |w|
  {
    if w == [] {
      assert w + t == t;
    } else {
      assert (w + t)[0] == w[0];
      assert (w + t)[1..] == w[1..] + t;
      TakeWordPrefix(w[1..], t);
    }
  }

  /** `split` takes a word that ends at whitespace or at the end of the
      text as its next part. */
  lemma SplitWordFront(w: string, t: string, maxsplit: nat)
    requires w != [] && forall k :: 0 <= k < |w| ==> !IsSpace(w[k])
    requires t == [] || IsSpace(t[0])
    requires maxsplit > 0
    ensures SplitWhitespace(w + t, maxsplit) == [w] + SplitWhitespace(t, maxsplit - 1)
  {
    assert TrimLeft(w + t, IsSpace) == w + t;
    TakeWordPrefix(w, t);
    assert (w + t)[|w|..] == t;
  }

  /** `split` does not see whitespace in front of the first word. */
  lemma SplitAfterSpace(s: string, maxsplit: nat)
    requires s == [] || !IsSpace(s[0])
    ensures SplitWhitespace(" " + s, maxsplit) == SplitWhitespace(s, maxsplit)
  {
    TrimLeftSkips(" ", s, IsSpace);
    assert TrimLeft(s, IsSpace) == s;
  }

  /** Python's `s.split()` with no limit. */
  function Words(s: string): seq<string> {
    SplitWhitespace(s, |s|)
  }

  predicate AllDigits(s: string) {
    forall k :: 0 <= k < |s| ==> '0' <= s[k] <= '9'
  }

  function DigitChar(d: nat): char
    requires d < 10
  {
    ('0' as int + d) as char
  }

  /** The value of a string of decimal digits, most significant first. */
  function DigitsValue(s: string): nat
    requires AllDigits(s)
  {
    if s == [] then 0 else DigitsValue(s[..|s| - 1]) * 10 + (s[|s| - 1] as int - '0' as int)
  }

  /** The decimal rendering of a natural number (`str(n)` / `f"{n}"`). */
  function NatToString(n: nat): (s: string)
    ensures s != [] && AllDigits(s)
  {
    if n < 10 then [DigitChar(n)] else NatToString(n / 10) + [DigitChar(n % 10)]
  }

  /** Python's `int(s)` for a string that is already stripped: an optional
      sign and ASCII digits; `None` stands for the ValueError. */
  function ParseInt(s: string): Option<int> {
    if s != [] && (s[0] == '+' || s[0] == '-') then
      var d := s[1..];
      if d != [] && AllDigits(d) then
        var v: int := DigitsValue(d);
        Some(if s[0] == '-' then -v else v)
      else None
    else if s != [] && AllDigits(s) then Some(DigitsValue(s))
    else None
  }

  lemma {:induction false} DigitsOfNat(n: nat)
    ensures DigitsValue(NatToString(n)) == n
    decreases n
  {
    if n >= 10 {
      var s := NatToString(n);
      assert s[..|s| - 1] == NatToString(n / 10);
      DigitsOfNat(n / 10);
    }
  }

  /** `int(str(n)) == n`. */
  lemma ParseNatToString(n: nat)
    ensures ParseInt(NatToString(n)) == Some(n)
  {
    DigitsOfNat(n);
  }

  /** Python's `str.lower()` on ASCII letters; other characters are kept. */
  function LowerAscii(s: string): (r: string)
    ensures |r| == |s|
    ensures forall k :: 0 <= k < |s| ==>
      r[k] == if 'A' <= s[k] <= 'Z' then (s[k] as int + 32) as char else s[k]
  {
    if s == [] then []
    else [if 'A' <= s[0] <= 'Z' then (s[0] as int + 32) as char else s[0]] + LowerAscii(s[1..])
  }
}
