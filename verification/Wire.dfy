/** The request on the wire: what the client prints and what the server reads back. */
module Wire {
  import opened Words

  const NUL: char := 0 as char
  const BUFFER: nat := 4104   // PATH_MAX + 8

  // ---- Numbers ----

  predicate IsDigit(c: char) { '0' <= c <= '9' }

  function DigitChar(d: nat): (c: char)
    requires d < 10
    ensures IsDigit(c) && c as int - '0' as int == d
  {
    ('0' as int + d) as char
  }

  /** `%llu`. */
  function Decimal(n: nat): (s: string)
    ensures |s| > 0 && forall i :: 0 <= i < |s| ==> IsDigit(s[i])
  {
    if n < 10 then [DigitChar(n)] else Decimal(n / 10) + [DigitChar(n % 10)]
  }

  /** Value of the leading digits, on top of what was read before. */
  function Accumulate(s: string, a: nat): nat {
    if s == [] || !IsDigit(s[0]) then a else Accumulate(s[1..], 10 * a + (s[0] as int - '0' as int))
  }

  predicate IsSpace(c: char) { c == ' ' || 9 <= c as int <= 13 }

  function SkipSpace(s: string): string {
    if s != [] && IsSpace(s[0]) then SkipSpace(s[1..]) else s
  }

  /** `strtoull(s, NULL, 10)`: blanks, an optional sign, digits; saturates on overflow, negates modulo
      2^64, and is 0 without digits. */
  function Strtoull(s: string): (u: nat)
    ensures u < U64
  {
    var t := SkipSpace(s);
    var signed := t != [] && (t[0] == '-' || t[0] == '+');
    var v := Accumulate(if signed then t[1..] else t, 0);
    if v >= U64 then U64 - 1
    else if signed && t[0] == '-' then (U64 - v) % U64
    else v
  }

  lemma {:induction false} AccumulateConcat(s: string, t: string, a: nat)
    requires forall i :: 0 <= i < |s| ==> IsDigit(s[i])
    ensures Accumulate(s + t, a) == Accumulate(t, Accumulate(s, a))
  {
    if s == [] {
      assert s + t == t;
    } else {
      assert (s + t)[1..] == s[1..] + t;
      AccumulateConcat(s[1..], t, 10 * a + (s[0] as int - '0' as int));
    }
  }

  lemma {:induction false} AccumulateDecimal(n: nat)
    ensures Accumulate(Decimal(n), 0) == n
  {
    if n >= 10 {
      AccumulateDecimal(n / 10);
      AccumulateConcat(Decimal(n / 10), [DigitChar(n % 10)], 0);
      assert [DigitChar(n % 10)][1..] == [];
    }
  }

  /** Every 64-bit timestamp survives the unsigned decimal detour, negative ones included. */
  lemma {:induction false} TimestampRoundTrip(t: int)
    requires -I63 <= t < I63
    ensures Signed64(Strtoull(Decimal(Unsigned64(t)))) == t
  {
    var s := Decimal(Unsigned64(t));
    AccumulateDecimal(Unsigned64(t));
    assert IsDigit(s[0]);
    assert SkipSpace(s) == s;
  }

  predicate Blanks(s: string) { forall i :: 0 <= i < |s| ==> s[i] in " \t\n\r" || s[i] as int in [11, 12] }

  /** What is read of blanks, a sign, decimal digits and a rest that does not go on with a digit: the number,
      the largest one when it does not fit 64 bits, and with a minus its negative modulo 2^64. */
  lemma {:induction false} ReadsNumber(blanks: string, sign: string, n: nat, rest: string)
    requires Blanks(blanks) && sign in ["", "+", "-"] && (rest == "" || !IsDigit(rest[0]))
    ensures Strtoull(blanks + sign + Decimal(n) + rest) ==
            if n >= 0x1_0000_0000_0000_0000 then 0xffff_ffff_ffff_ffff
            else if sign == "-" && n > 0 then 0x1_0000_0000_0000_0000 - n
            else n
  {
    hide Decimal, Accumulate, SkipSpace;
    var number := Decimal(n) + rest;
    assert blanks + sign + Decimal(n) + rest == blanks + (sign + number);
    assert IsDigit(number[0]);
    SkipsBlanks(blanks, sign + number);
    AccumulateDecimal(n);
    AccumulateConcat(Decimal(n), rest, 0);
    AccumulateStops(rest, n);
    if sign != "" { assert (sign + number)[1..] == number; } else { assert sign + number == number; }
  }

  lemma {:induction false} AccumulateStops(rest: string, a: nat)
    requires rest == "" || !IsDigit(rest[0])
    ensures Accumulate(rest, a) == a
  {
  }

  lemma {:induction false} SkipsBlanks(blanks: string, s: string)
    requires Blanks(blanks) && s != "" && s[0] in "+-0123456789"
    ensures SkipSpace(blanks + s) == s
  {
    if blanks == "" {
      assert blanks + s == s;
    } else {
      assert (blanks + s)[1..] == blanks[1..] + s && Blanks(blanks[1..]);
      SkipsBlanks(blanks[1..], s);
    }
  }

  /** Without a digit the number is 0. */
  lemma {:induction false} ReadsNothing(blanks: string, s: string)
    requires Blanks(blanks) && (s == "" || !(s[0] in "+-0123456789" || IsSpace(s[0])))
    ensures Strtoull(blanks + s) == 0
  {
    if blanks == "" {
      assert blanks + s == s;
    } else {
      assert (blanks + s)[1..] == blanks[1..] + s && Blanks(blanks[1..]);
      ReadsNothing(blanks[1..], s);
    }
  }

  // ---- Strings in a buffer ----

  /** The C string that starts at index i: up to the next NUL or the end of the buffer. */
  function CString(b: seq<char>, i: nat): (s: string)
    requires i <= |b|
    ensures |s| <= |b| - i && s == b[i..i + |s|] && NUL !in s
    ensures i + |s| < |b| ==> b[i + |s|] == NUL
    decreases |b| - i
  {
    if i == |b| || b[i] == NUL then [] else [b[i]] + CString(b, i + 1)
  }

  function IndexOf(s: string, c: char): (i: nat)
    ensures i <= |s| && (i < |s| ==> s[i] == c) && forall j :: 0 <= j < i ==> s[j] != c
  {
    if s == [] || s[0] == c then 0 else 1 + IndexOf(s[1..], c)
  }

  /** `strstr(s, p) != NULL`. */
  predicate Contains(s: string, p: string) {
    exists i :: 0 <= i <= |s| - |p| && p <= s[i..]
  }

  // ---- The request ----

  datatype Request = Dropped | Request(timestamp: int, prefix: string, path: string)

  /** Split at the first two colons; the path keeps all further ones. */
  function Split(text: string): Request {
    var i := IndexOf(text, ':');
    if i == |text| then Dropped
    else
      var rest := text[i + 1..];
      var j := IndexOf(rest, ':');
      if j == |rest| then Dropped
      else Request(Signed64(Strtoull(text[..i])), rest[..j], rest[j + 1..])
  }

  /** Which requests are served at all. */
  predicate Served(prefix: string, path: string) {
    && path != "/"
    && !Contains(path, "..") && !Contains(prefix, "..") && !Contains(path, "'") && !Contains(path, ";")
    && (prefix == "lib" || prefix == "src")
  }

  function Parse(buf: seq<char>): Request {
    var r := Split(CString(buf, 0));
    if r.Request? && Served(r.prefix, r.path) then r else Dropped
  }

  /** A NUL over the first colon of the string that starts at `from`, if it has one. */
  function CutColon(b: seq<char>, from: nat): (r: seq<char>)
    requires from <= |b|
    ensures |r| == |b|
  {
    var s := CString(b, from);
    if IndexOf(s, ':') == |s| then b else b[from + IndexOf(s, ':') := NUL]
  }

  /** The buffer after the cuts: a NUL over the first colon of the request and over the next one. */
  function Cut(b: seq<char>): (r: seq<char>) {
    var s := CString(b, 0);
    var c := IndexOf(s, ':');
    if c == |s| then b else CutColon(CutColon(b, 0), c + 1)
  }

  /** `strchr` from index `from`: the index of the first c before the string ends, or -1. */
  method StrChr(buf: array<char>, from: nat, c: char) returns (i: int)
    requires from <= buf.Length && c != NUL
    ensures var s := CString(buf[..], from); i == if IndexOf(s, c) < |s| then from + IndexOf(s, c) else -1
  {
    ghost var b := buf[..];
    ghost var s := CString(b, from);
    i := from;
    while i < buf.Length && buf[i] != NUL
      invariant from <= i <= from + |s|
      invariant forall j :: 0 <= j < i - from ==> s[j] != c
      decreases buf.Length - i
    {
      assert i - from < |s| && s[i - from] == b[i];
      if buf[i] == c {
        return;
      }
      i := i + 1;
    }
    assert i - from == |s|;
    i := -1;
  }

  /** The server cuts the buffer in place, writing a NUL over each of the first two colons. */
  method ParseInPlace(buf: array<char>) returns (r: Request)
    modifies buf
    ensures r == Parse(old(buf[..])) && buf[..] == Cut(old(buf[..]))
  {
    hide CString, IndexOf, Served, Strtoull, Signed64, Split, Cut;
    ghost var b := buf[..];
    var c := StrChr(buf, 0, ':');
    if c < 0 {
      NoColon(b);
      return Dropped;
    }
    buf[c] := NUL;
    ghost var b1 := buf[..];
    assert b1 == b[c := NUL];
    var timestamp := Signed64(Strtoull(CString(buf[..], 0)));
    var p := StrChr(buf, c + 1, ':');
    if p < 0 {
      OneColon(b, c);
      return Dropped;
    }
    buf[p] := NUL;
    assert buf[..] == b1[p := NUL];
    var prefix, path := CString(buf[..], c + 1), CString(buf[..], p + 1);
    TwoColons(b, c, p);
    if !Served(prefix, path) {
      return Dropped;
    }
    return Request(timestamp, prefix, path);
  }

  lemma {:induction false} NoColon(b: seq<char>)
    requires IndexOf(CString(b, 0), ':') == |CString(b, 0)|
    ensures Split(CString(b, 0)) == Dropped && Cut(b) == b
  {
  }

  lemma {:induction false} OneColon(b: seq<char>, c: nat)
    requires c == IndexOf(CString(b, 0), ':') < |CString(b, 0)|
    requires var rest := CString(b[c := NUL], c + 1); IndexOf(rest, ':') == |rest|
    ensures Split(CString(b, 0)) == Dropped && Cut(b) == b[c := NUL]
  {
    hide CString, IndexOf, Split;
    CutAt(b, 0, c);
    SplitNone(CString(b, 0), c);
  }

  lemma {:induction false} SplitNone(text: string, i: nat)
    requires i == IndexOf(text, ':') < |text| && IndexOf(text[i + 1..], ':') == |text[i + 1..]|
    ensures Split(text) == Dropped
  {
    hide Strtoull, IndexOf;
  }

  lemma {:induction false} CutTwo(b: seq<char>, c: nat, p: nat)
    requires c == IndexOf(CString(b, 0), ':') < |CString(b, 0)| && c < |b|
    requires var rest := CString(b[c := NUL], c + 1); c + 1 <= p && p - (c + 1) == IndexOf(rest, ':') < |rest|
    ensures p < |b| && Cut(b) == b[c := NUL][p := NUL]
  {
    hide CString, IndexOf;
    assert CutColon(b, 0) == b[c := NUL];
    assert CutColon(b[c := NUL], c + 1) == b[c := NUL][p := NUL];
  }

  /** The split of the whole string, read off the buffer after the two cuts. */
  lemma {:induction false} TwoColons(b: seq<char>, c: nat, p: nat)
    requires c == IndexOf(CString(b, 0), ':') < |CString(b, 0)|
    requires var b1 := b[c := NUL]; var rest := CString(b1, c + 1);
             c + 1 <= p && p - (c + 1) == IndexOf(rest, ':') < |rest|
    ensures p < |b| && var b1 := b[c := NUL]; var b2 := b1[p := NUL];
            && Cut(b) == b2
            && Split(CString(b, 0))
               == Request(Signed64(Strtoull(CString(b1, 0))), CString(b2, c + 1), CString(b2, p + 1))
  {
    hide CString, IndexOf, Strtoull, Signed64, Split, Cut;
    var text, b1 := CString(b, 0), b[c := NUL];
    CutAt(b, 0, c);
    CutAt(b1, c + 1, p);
    CutTwo(b, c, p);
    SplitOf(text, c, p - (c + 1));
  }

  lemma {:induction false} SplitOf(text: string, i: nat, j: nat)
    requires i == IndexOf(text, ':') < |text| && j == IndexOf(text[i + 1..], ':') < |text[i + 1..]|
    ensures var rest := text[i + 1..];
            Split(text) == Request(Signed64(Strtoull(text[..i])), rest[..j], rest[j + 1..])
  {
    hide Strtoull, IndexOf;
  }

  /** A NUL written over the first c of a string leaves the part before it and the part after it. */
  lemma {:induction false} CutAt(b: seq<char>, from: nat, c: nat)
    requires from <= |b| && from <= c < from + |CString(b, from)|
    ensures c < |b| && CString(b[c := NUL], from) == CString(b, from)[..c - from]
    ensures CString(b[c := NUL], c + 1) == CString(b, from)[c - from + 1..]
  {
    CutString(b, from, c);
    TailOfString(b, from, c - from + 1);
    SameTail(b, b[c := NUL], c + 1);
  }

  lemma {:induction false} CutString(b: seq<char>, from: nat, c: nat)
    requires from <= |b| && from <= c < from + |CString(b, from)|
    ensures CString(b[c := NUL], from) == CString(b, from)[..c - from]
    decreases c - from
  {
    if from < c { CutString(b, from + 1, c); }
  }

  lemma {:induction false} SameTail(b: seq<char>, b': seq<char>, i: nat)
    requires i <= |b| == |b'| && b[i..] == b'[i..]
    ensures CString(b, i) == CString(b', i)
    decreases |b| - i
  {
    if i < |b| {
      assert b[i] == b[i..][0] == b'[i..][0] == b'[i];
      assert b[i + 1..] == b[i..][1..] && b'[i + 1..] == b'[i..][1..];
      SameTail(b, b', i + 1);
    }
  }

  lemma {:induction false} TailOfString(b: seq<char>, i: nat, j: nat)
    requires i <= |b| && j <= |CString(b, i)|
    ensures i + j <= |b| && CString(b, i + j) == CString(b, i)[j..]
    decreases j
  {
    if j > 0 { TailOfString(b, i + 1, j - 1); }
  }

  // ---- Round trip ----

  /** `asprintf("%llu:%s:%s", ...)`. */
  function Message(timestamp: int, prefix: string, path: string): string {
    Decimal(Unsigned64(timestamp)) + ":" + prefix + ":" + path
  }

  /** The zeroed buffer after one read of the message and its NUL. */
  function Received(msg: string): (b: seq<char>)
    requires |msg| + 1 <= BUFFER
    ensures |b| == BUFFER
  {
    msg + seq(BUFFER - |msg|, _ => NUL)
  }

  lemma {:induction false} StringOfReceived(b: seq<char>, msg: string, i: nat)
    requires i <= |msg| < |b| && b[..|msg|] == msg && b[|msg|] == NUL && NUL !in msg
    ensures CString(b, i) == msg[i..]
    decreases |msg| - i
  {
    if i < |msg| {
      assert b[i] == b[..|msg|][i] == msg[i];
      StringOfReceived(b, msg, i + 1);
      assert msg[i..] == [msg[i]] + msg[i + 1..];
    }
  }

  lemma {:induction false} IndexOfConcat(s: string, c: char, t: string)
    requires c !in s
    ensures IndexOf(s + [c] + t, c) == |s|
  {
    var x := s + [c] + t;
    assert x[|s|] == c;
  }

  lemma {:induction false} SplitMessage(timestamp: int, prefix: string, path: string)
    requires -I63 <= timestamp < I63 && ':' !in prefix
    ensures Split(Message(timestamp, prefix, path)) == Request(timestamp, prefix, path)
  {
    hide Decimal, Strtoull, IndexOf, Unsigned64;
    var d, rest := Decimal(Unsigned64(timestamp)), prefix + ":" + path;
    var msg := Message(timestamp, prefix, path);
    assert msg == d + [':'] + rest;
    IndexOfConcat(d, ':', rest);
    assert msg[..|d|] == d && msg[|d| + 1..] == rest;
    assert rest == prefix + [':'] + path;
    IndexOfConcat(prefix, ':', path);
    assert rest[..|prefix|] == prefix && rest[|prefix| + 1..] == path;
    TimestampRoundTrip(timestamp);
  }

  lemma {:induction false} MessageHasNoNul(timestamp: int, prefix: string, path: string)
    requires NUL !in prefix && NUL !in path
    ensures NUL !in Message(timestamp, prefix, path)
  {
    var d := Decimal(Unsigned64(timestamp));
    assert forall i :: 0 <= i < |d| ==> d[i] != NUL;
  }

  /** No two dots next to each other. */
  predicate NoDots(s: string) {
    forall i :: 0 <= i < |s| - 1 ==> !(s[i] == '.' && s[i + 1] == '.')
  }

  /** Which requests pass, said by their characters. */
  predicate Passes(prefix: string, path: string) {
    (prefix == "lib" || prefix == "src") && path != "/" && NoDots(path) && '\'' !in path && ';' !in path
  }

  lemma {:induction false} ContainsPair(s: string, a: char, b: char)
    ensures Contains(s, [a, b]) <==> exists i :: 0 <= i < |s| - 1 && s[i] == a && s[i + 1] == b
  {
    forall i | 0 <= i <= |s| - 2 ensures [a, b] <= s[i..] <==> s[i] == a && s[i + 1] == b {
      assert s[i..][..2] == [s[i], s[i + 1]];
    }
    if i :| 0 <= i < |s| - 1 && s[i] == a && s[i + 1] == b { assert [a, b] <= s[i..]; }
    if Contains(s, [a, b]) {
      var i :| 0 <= i <= |s| - |[a, b]| && [a, b] <= s[i..];
      assert s[i] == a && s[i + 1] == b;
    }
  }

  lemma {:induction false} ContainsChar(s: string, c: char)
    ensures Contains(s, [c]) <==> c in s
  {
    forall i | 0 <= i <= |s| - 1 ensures [c] <= s[i..] <==> s[i] == c {
      assert s[i..][..1] == [s[i]];
    }
  }

  /** The filter: a request is served exactly when it has one of the two prefixes and a path other than "/"
      without two adjacent dots, quote or semicolon. */
  lemma {:induction false} ServedExactly(prefix: string, path: string)
    ensures Served(prefix, path) <==> Passes(prefix, path)
  {
    assert ".." == ['.', '.'] && "'" == ['\''] && ";" == [';'];
    ContainsPair(path, '.', '.');
    ContainsPair(prefix, '.', '.');
    ContainsChar(path, '\'');
    ContainsChar(path, ';');
  }

  /** What is parsed from any buffer has passed the filter, and what passes is parsed as it was split. */
  lemma {:induction false} ParsedExactly(buf: seq<char>)
    ensures var r := Split(CString(buf, 0));
            Parse(buf) == if r.Request? && Passes(r.prefix, r.path) then r else Dropped
  {
    var r := Split(CString(buf, 0));
    if r.Request? { ServedExactly(r.prefix, r.path); }
  }

  /** For every 64-bit timestamp, prefix without a colon and path, colons and all: if the message with its NUL
      fits the buffer and arrives in one read, the server splits it into the same triple, and serves it iff it
      passes. */
  lemma {:induction false} RoundTrip(timestamp: int, prefix: string, path: string)
    requires -0x8000_0000_0000_0000 <= timestamp < 0x8000_0000_0000_0000
    requires ':' !in prefix && NUL !in prefix && NUL !in path
    requires |Message(timestamp, prefix, path)| + 1 <= 4104
    ensures var buf := Received(Message(timestamp, prefix, path));
            && Split(CString(buf, 0)) == Request(timestamp, prefix, path)
            && Parse(buf) == if Passes(prefix, path) then Request(timestamp, prefix, path) else Dropped
  {
    hide Split, Message, CString, Parse, Passes;
    var msg := Message(timestamp, prefix, path);
    var buf := Received(msg);
    MessageHasNoNul(timestamp, prefix, path);
    assert buf[..|msg|] == msg;
    StringOfReceived(buf, msg, 0);
    assert msg[0..] == msg;
    SplitMessage(timestamp, prefix, path);
    ParsedExactly(buf);
  }

  /** A path with "..", a quote or a semicolon anywhere is dropped. */
  lemma {:induction false} BadPathDropped(timestamp: int, prefix: string, a: string, bad: string, b: string)
    requires -0x8000_0000_0000_0000 <= timestamp < 0x8000_0000_0000_0000
    requires ':' !in prefix && NUL !in prefix && NUL !in a && NUL !in b && bad in ["..", "'", ";"]
    requires |Message(timestamp, prefix, a + bad + b)| + 1 <= 4104
    ensures Parse(Received(Message(timestamp, prefix, a + bad + b))) == Dropped
  {
    hide Parse, Message, Received, Split;
    var path := a + bad + b;
    assert forall i :: 0 <= i < |bad| ==> path[|a| + i] == bad[i];
    if bad == ".." { assert path[|a|] == '.' && path[|a| + 1] == '.'; } else { assert path[|a|] == bad[0]; }
    RoundTrip(timestamp, prefix, path);
  }

  /** On the wire: the decimal timestamp as an unsigned number, the prefix, and the path. */
  lemma MessageExample()
    ensures Message(-1, "lib", "/a:b") == Decimal(0xffff_ffff_ffff_ffff) + ":lib:/a:b"
    ensures Message(10, "src", "/x") == "10:src:/x"
  {
    assert Decimal(10) == "1" + "0";
    hide Decimal;
    assert ":" + "lib" + ":" + "/a:b" == ":lib:/a:b";
    var d := Decimal(0xffff_ffff_ffff_ffff);
    assert d + ":" + "lib" + ":" + "/a:b" == d + (":" + "lib" + ":" + "/a:b");
    assert "1" + "0" + ":" + "src" + ":" + "/x" == "10:src:/x";
  }
}
