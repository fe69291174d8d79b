/** The list of mirrors: read from the environment, rotated on bad responses. */
module Mirrors {
  import opened Fetches
  import opened Refinement

  predicate IsSep(c: char) { c == ' ' || c == '\t' || c == '\n' }

  /** `strcspn(s, " \t\n")`. */
  function Strcspn(s: string): (n: nat)
    ensures n <= |s| && (n < |s| ==> IsSep(s[n])) && forall i :: 0 <= i < n ==> !IsSep(s[i])
  {
    if s == [] || IsSep(s[0]) then 0 else 1 + Strcspn(s[1..])
  }

  function NonEmpty(t: string): seq<string> { if t == [] then [] else [t] }

  /** What the scan of one string collects. */
  function Tokens(s: string): seq<string> {
    var n := Strcspn(s);
    NonEmpty(s[..n]) + if n == |s| then [] else Tokens(s[n + 1..])
  }

  lemma {:induction false} TokensUnfold(s: string, n: nat)
    requires n <= |s| && (forall i :: 0 <= i < n ==> !IsSep(s[i])) && (n < |s| ==> IsSep(s[n]))
    ensures Strcspn(s) == n
    ensures Tokens(s) == NonEmpty(s[..n]) + if n == |s| then [] else Tokens(s[n + 1..])
  {
    hide Strcspn;
    assert Strcspn(s) == n;
  }

  // ---- The tokens are the maximal separator-free runs, in order ----

  predicate MaximalRun(s: string, i: int, j: int) {
    && 0 <= i < j <= |s|
    && (forall k :: i <= k < j ==> !IsSep(s[k]))
    && (i == 0 || IsSep(s[i - 1]))
    && (j == |s| || IsSep(s[j]))
  }

  /** The first separator at or after `from`, or the end. */
  function NextSep(s: string, from: nat): (e: nat)
    requires from <= |s|
    ensures from <= e <= |s| && (e < |s| ==> IsSep(s[e])) && forall i :: from <= i < e ==> !IsSep(s[i])
    decreases |s| - from
  {
    if from == |s| || IsSep(s[from]) then from else NextSep(s, from + 1)
  }

  /** The runs that start at or after `from`, as index pairs. */
  function Runs(s: string, from: nat): seq<(int, int)>
    requires from <= |s|
    decreases |s| - from
  {
    var e := NextSep(s, from);
    (if from == e then [] else [(from, e)]) + if e == |s| then [] else Runs(s, e + 1)
  }

  ghost predicate ExactlyTheRuns(s: string, from: nat, runs: seq<(int, int)>) {
    AllRuns(s, from, runs) && Ordered(runs) && Complete(s, from, runs)
  }

  predicate AllRuns(s: string, from: nat, runs: seq<(int, int)>) {
    forall k :: 0 <= k < |runs| ==> from <= runs[k].0 && MaximalRun(s, runs[k].0, runs[k].1)
  }

  predicate Ordered(runs: seq<(int, int)>) {
    forall k, l :: 0 <= k < l < |runs| ==> runs[k].1 < runs[l].0
  }

  ghost predicate Complete(s: string, from: nat, runs: seq<(int, int)>) {
    forall i, j :: from <= i && MaximalRun(s, i, j) ==> (i, j) in runs
  }

  ghost predicate Cut(s: string, runs: seq<(int, int)>, ts: seq<string>) {
    && |ts| == |runs|
    && forall k :: 0 <= k < |runs| ==> 0 <= runs[k].0 <= runs[k].1 <= |s| && ts[k] == s[runs[k].0..runs[k].1]
  }

  lemma {:induction false} RunsUnfold(s: string, from: nat)
    requires from <= |s|
    ensures var end := NextSep(s, from); var later := if end == |s| then [] else Runs(s, end + 1);
            Runs(s, from) == if from == end then later else [(from as int, end as int)] + later
  {
  }

  lemma {:induction false} RunsFrom(s: string, from: nat)
    requires from <= |s| && (from == 0 || IsSep(s[from - 1]))
    ensures ExactlyTheRuns(s, from, Runs(s, from))
    decreases |s| - from
  {
    hide ExactlyTheRuns, NextSep, Runs;
    var end := NextSep(s, from);
    RunsUnfold(s, from);
    if end < |s| {
      RunsFrom(s, end + 1);
      RunsStep(s, from, end, Runs(s, end + 1));
    } else {
      LastRun(s, from);
      assert [(from as int, end as int)] + [] == [(from as int, end as int)];
    }
  }

  lemma {:induction false} CutFrom(s: string, from: nat)
    requires from <= |s|
    ensures Cut(s, Runs(s, from), Tokens(s[from..]))
    decreases |s| - from
  {
    hide Cut, Tokens, NextSep, Runs;
    var end := NextSep(s, from);
    TokensAt(s, from);
    RunsUnfold(s, from);
    if end < |s| {
      CutFrom(s, end + 1);
      CutStep(s, from, end, Runs(s, end + 1), Tokens(s[end + 1..]));
    } else {
      CutStep(s, from, end, [], []) by { CutNone(s); }
      assert [(from as int, end as int)] + [] == [(from as int, end as int)];
    }
  }

  lemma {:induction false} CutNone(s: string)
    ensures Cut(s, [], [])
  {
  }

  lemma {:induction false} TokensAt(s: string, from: nat)
    requires from <= |s|
    ensures var end := NextSep(s, from);
            Tokens(s[from..]) == NonEmpty(s[from..end]) + if end == |s| then [] else Tokens(s[end + 1..])
  {
    hide Tokens, Strcspn, NextSep;
    var end, r := NextSep(s, from), s[from..];
    forall i | 0 <= i < end - from ensures !IsSep(r[i]) { assert r[i] == s[from + i]; }
    TokensUnfold(r, end - from);
    assert r[..end - from] == s[from..end];
    if end < |s| { assert r[end - from + 1..] == s[end + 1..]; }
  }

  lemma {:induction false} LastRun(s: string, from: nat)
    requires from <= |s| && (from == 0 || IsSep(s[from - 1])) && forall k :: from <= k < |s| ==> !IsSep(s[k])
    ensures var runs := if from == |s| then [] else [(from as int, |s| as int)];
            ExactlyTheRuns(s, from, runs)
  {
    forall i, j | from <= i && MaximalRun(s, i, j) ensures i == from && j == |s| && from < |s| {
      OneRun(s, from, |s| - from, i, j);
    }
  }

  lemma {:induction false} CutStep(s: string, from: nat, end: nat, runs: seq<(int, int)>, ts: seq<string>)
    requires from <= end <= |s| && Cut(s, runs, ts)
    ensures Cut(s, if from == end then runs else [(from as int, end as int)] + runs, NonEmpty(s[from..end]) + ts)
  {
  }

  /** The run from `from` to the separator at `end`, if not empty, comes in front of the later ones. */
  lemma {:induction false} RunsStep(s: string, from: nat, end: nat, runs: seq<(int, int)>)
    requires from <= end < |s| && (from == 0 || IsSep(s[from - 1]))
    requires IsSep(s[end]) && forall k :: from <= k < end ==> !IsSep(s[k])
    requires ExactlyTheRuns(s, end + 1, runs)
    ensures ExactlyTheRuns(s, from, if from == end then runs else [(from as int, end as int)] + runs)
  {
    if from < end {
      FrontRun(s, from, end, runs);
    }
    FrontComplete(s, from, end, runs);
  }

  lemma {:induction false} FrontRun(s: string, from: nat, end: nat, runs: seq<(int, int)>)
    requires from < end < |s| && MaximalRun(s, from, end) && AllRuns(s, end + 1, runs) && Ordered(runs)
    ensures AllRuns(s, from, [(from as int, end as int)] + runs) && Ordered([(from as int, end as int)] + runs)
  {
    var all := [(from as int, end as int)] + runs;
    assert forall k :: 1 <= k < |all| ==> all[k] == runs[k - 1];
  }

  lemma {:induction false} FrontComplete(s: string, from: nat, end: nat, runs: seq<(int, int)>)
    requires from <= end < |s| && IsSep(s[end]) && (forall k :: from <= k < end ==> !IsSep(s[k]))
    requires Complete(s, end + 1, runs)
    ensures Complete(s, from, if from == end then runs else [(from as int, end as int)] + runs)
  {
    forall i, j | from <= i && MaximalRun(s, i, j)
      ensures (i, j) in if from == end then runs else [(from as int, end as int)] + runs
    {
      OneRun(s, from, end - from, i, j);
    }
  }

  /** A maximal run either is the one that starts at `from`, or starts behind the separator. */
  lemma {:induction false} OneRun(s: string, from: nat, n: nat, i: int, j: int)
    requires from <= i && from + n <= |s| && MaximalRun(s, i, j)
    requires (forall k :: from <= k < from + n ==> !IsSep(s[k])) && (from + n < |s| ==> IsSep(s[from + n]))
    ensures (i == from && j == from + n && n > 0) || i > from + n
  {
  }

  /** Tokenizing returns exactly the maximal non-empty runs free of space, tab and newline, in order. */
  lemma {:induction false} TokensAreTheRuns(s: string)
    ensures ExactlyTheRuns(s, 0, Runs(s, 0)) && Cut(s, Runs(s, 0), Tokens(s))
  {
    RunsFrom(s, 0);
    CutFrom(s, 0);
    assert s[0..] == s;
  }

  // ---- Round trip ----

  predicate Blank(s: string) { forall i :: 0 <= i < |s| ==> IsSep(s[i]) }

  predicate Word(t: string) { t != [] && forall i :: 0 <= i < |t| ==> !IsSep(t[i]) }

  /** Words each followed by a gap; only the last gap may be empty. */
  predicate Spaced(ts: seq<string>, gaps: seq<string>) {
    && |gaps| == |ts|
    && (forall k :: 0 <= k < |ts| ==> Word(ts[k]) && Blank(gaps[k]) && (k + 1 < |ts| ==> gaps[k] != []))
  }

  function Join(ts: seq<string>, gaps: seq<string>): string
    requires |gaps| == |ts|
  {
    if ts == [] then [] else ts[0] + gaps[0] + Join(ts[1..], gaps[1..])
  }

  lemma {:induction false} SkipBlank(b: string, s: string)
    requires Blank(b)
    ensures Tokens(b + s) == Tokens(s)
  {
    if b == [] {
      assert b + s == s;
    } else {
      assert Strcspn(b + s) == 0;
      assert (b + s)[0 + 1..] == b[1..] + s;
      assert forall i :: 0 <= i < |b[1..]| ==> b[1..][i] == b[i + 1];
      SkipBlank(b[1..], s);
    }
  }

  lemma {:induction false} FirstWord(t: string, g: string, s: string)
    requires Word(t) && Blank(g) && (g == [] ==> s == [])
    ensures Tokens(t + g + s) == [t] + Tokens(s)
  {
    hide Tokens, Strcspn;
    var x := t + g + s;
    assert forall i :: 0 <= i < |t| ==> x[i] == t[i];
    TokensUnfold(x, |t|);
    if g == [] {
      assert x == t && t[..|t|] == t;
      TokensUnfold([], 0);
    } else {
      var g' := g[1..];
      assert x[|t|] == g[0];
      assert forall i :: 0 <= i < |g'| ==> g'[i] == g[i + 1];
      assert x[..|t|] == t && x[|t| + 1..] == g' + s;
      SkipBlank(g', s);
    }
  }

  /** Tokenizing words joined by separators, with any separators in front, gives the words back. */
  lemma {:induction false} JoinRoundTrip(lead: string, ts: seq<string>, gaps: seq<string>)
    requires Blank(lead) && Spaced(ts, gaps)
    ensures Tokens(lead + Join(ts, gaps)) == ts
    decreases |ts|
  {
    hide Tokens, Word;
    SkipBlank(lead, Join(ts, gaps));
    if ts == [] {
      TokensUnfold([], 0);
      assert NonEmpty([]) == [];
    } else {
      var rest := Join(ts[1..], gaps[1..]);
      FirstWord(ts[0], gaps[0], rest);
      JoinRoundTrip([], ts[1..], gaps[1..]);
      assert [] + rest == rest;
    }
  }

  /** Space, tab and newline separate; nothing else does. */
  lemma SeparatorsExample()
    ensures Tokens(" a\tb\n\nc,d\re") == ["a", "b", "c,d\re"]
  {
    hide Tokens, Strcspn;
    var ts, gaps := ["a", "b", "c,d\re"], ["\t", "\n\n", ""];
    assert Join(ts[3..], gaps[3..]) == "";
    assert ts[2..] == [ts[2]] && gaps[2..] == [""];
    assert Join(ts[2..], gaps[2..]) == "c,d\re" by { assert ts[2..][1..] == [] && "c,d\re" + "" + "" == "c,d\re"; }
    assert ts[1..][1..] == ts[2..] && gaps[1..][1..] == gaps[2..];
    assert Join(ts[1..], gaps[1..]) == "b\n\nc,d\re";
    assert Join(ts, gaps) == "a\tb\n\nc,d\re";
    JoinRoundTrip(" ", ts, gaps);
    assert " " + "a\tb\n\nc,d\re" == " a\tb\n\nc,d\re";
  }

  /** There is no token exactly when the variable holds separators only. */
  lemma {:induction false} NoTokenExactly(s: string)
    ensures Tokens(s) == [] <==> Blank(s)
  {
    TokensAreTheRuns(s);
    if Blank(s) {
      assert s + [] == s;
      SkipBlank(s, []);
    } else {
      var k :| 0 <= k < |s| && !IsSep(s[k]);
      var i, j := Around(s, k);
      assert (i, j) in Runs(s, 0);
    }
  }

  /** The maximal run around a character that is no separator. */
  lemma {:induction false} Around(s: string, k: nat) returns (i: int, j: int)
    requires k < |s| && !IsSep(s[k])
    ensures MaximalRun(s, i, j) && i <= k < j
  {
    i, j := k, k + 1;
    while i > 0 && !IsSep(s[i - 1])
      invariant 0 <= i <= k && forall h :: i <= h <= k ==> !IsSep(s[h])
    {
      i := i - 1;
    }
    while j < |s| && !IsSep(s[j])
      invariant k < j <= |s| && forall h :: i <= h < j ==> !IsSep(s[h])
    {
      j := j + 1;
    }
  }

  // ---- Rotation ----

  /** A response on which the next request goes to another mirror. */
  predicate Unsatisfied(response: int) {
    response != 200 && response != 404 && response != 304
  }

  /** The counter after these responses. */
  function CounterAfter(c: nat, responses: seq<int>): nat {
    if responses == [] then c
    else
      var n := |responses| - 1;
      CounterAfter(c, responses[..n]) + if Unsatisfied(responses[n]) then 1 else 0
  }

  /** One response: with two or more mirrors, the next request goes to another one, the following in the list,
      iff the response was none of 200, 404 and 304. */
  lemma {:induction false} MirrorChangesExactly(c: nat, response: int, mirrors: nat)
    requires mirrors >= 2
    ensures var m, m' := c % mirrors, CounterAfter(c, [response]) % mirrors;
            && (m' != m <==> response !in [200, 404, 304])
            && m' == if response in [200, 404, 304] then m else if m + 1 < mirrors then m + 1 else 0
  {
    assert [response][..0] == [];
    var a, m := c / mirrors, c % mirrors;
    assert c == mirrors * a + m;
    if m + 1 < mirrors {
      DivUnique(c + 1, mirrors, a, m + 1);
    } else {
      assert mirrors * (a + 1) == mirrors * a + mirrors;
      DivUnique(c + 1, mirrors, a + 1, 0);
    }
  }

  lemma {:induction false} CounterReaches(c: nat, responses: seq<int>, k: nat) returns (i: nat)
    requires c <= k <= CounterAfter(c, responses)
    ensures i <= |responses| && CounterAfter(c, responses[..i]) == k
  {
    if CounterAfter(c, responses) == k {
      i := |responses|;
      assert responses[..i] == responses;
    } else {
      var u := responses[..|responses| - 1];
      i := CounterReaches(c, u, k);
      assert u[..i] == responses[..i];
    }
  }

  /** No mirror is left out: once one response fewer than there are mirrors was unsatisfactory, in whatever
      order with others, each mirror has been the selected one. */
  lemma {:induction false} EveryMirrorSelected(c: nat, responses: seq<int>, mirrors: nat, m: nat) returns (i: nat)
    requires m < mirrors && CounterAfter(c, responses) >= c + mirrors - 1
    ensures i <= |responses| && CounterAfter(c, responses[..i]) % mirrors == m
  {
    hide CounterAfter;
    var k := NextFor(c, mirrors, m);
    i := CounterReaches(c, responses, k);
  }

  /** Among as many counter values as there are mirrors each mirror occurs. */
  lemma {:induction false} NextFor(c: nat, mirrors: nat, m: nat) returns (k: nat)
    requires m < mirrors
    ensures c <= k < c + mirrors && k % mirrors == m
  {
    var a, r := c / mirrors, c % mirrors;
    assert c == mirrors * a + r;
    if m >= r {
      k := mirrors * a + m;
      DivUnique(k, mirrors, a, m);
    } else {
      k := mirrors * a + mirrors + m;
      assert mirrors * (a + 1) == mirrors * a + mirrors;
      DivUnique(k, mirrors, a + 1, m);
    }
  }

  // ---- The globals ----

  class Mirrors {
    var urls: seq<string>
    var urlcounter: nat

    ghost predicate Valid()
      reads this
    {
      |urls| > 0
    }

    constructor ()
      ensures Valid() && |urls| == 2 && urlcounter == 1 && PrefixFree(urls)
      ensures urls == [CDN, CDN_ALT]
    {
      urls := [CDN, CDN_ALT];
      urlcounter := 1;
      new;
      assert urls[0][11] == '.' && urls[1][11] == '-';
    }

    /** `configure_urls`; `present` tells whether the variable exists. The defaults stay exactly when it
        yields no token. */
    method ConfigureUrls(present: bool, env: string) returns (count: nat)
      requires Valid()
      modifies this
      ensures Valid() && count == |if present then Tokens(env) else []|
      ensures if present && Tokens(env) != [] then urls == Tokens(env) && urlcounter == 0
              else urls == old(urls) && urlcounter == old(urlcounter)
    {
      hide Tokens, Strcspn;
      count := 0;
      var urlsNew: seq<string> := [];
      if present {
        var token := 0;
        assert env[0..] == env;
        while true
          invariant 0 <= token <= |env| && unchanged(this)
          invariant count == |urlsNew| && urlsNew + Tokens(env[token..]) == Tokens(env)
          decreases |env| - token
        {
          var rest := env[token..];
          var tokenLen := Strcspn(rest);
          TokensUnfold(rest, tokenLen);
          if tokenLen > 0 {
            count := count + 1;
            urlsNew := urlsNew + [env[token..token + tokenLen]];
            assert rest[..tokenLen] == env[token..token + tokenLen];
            token := token + tokenLen;
          }
          if token == |env| {
            assert urlsNew == Tokens(env);
            break;
          }
          assert rest[tokenLen + 1..] == env[token + 1..];
          token := token + 1;
        }
      }
      if count > 0 {
        urls := urlsNew;
        urlcounter := 0;
      }
    }

    /** The URL of a request on the current mirror. */
    method UrlFor(prefix: string, path: string) returns (url: string)
      requires Valid()
      ensures url == BuildUrl(urls, urlcounter, prefix, path) && Serves(urls, prefix, path, url)
    {
      url := urls[urlcounter % |urls|] + prefix + path + ".tar";
      assert url == BuildUrl(urls, urlcounter % |urls|, prefix, path);
    }

    /** After a response other than 200, 404 or 304 the next request goes to the next mirror. */
    method Rotate(response: int)
      requires Valid()
      modifies this`urlcounter
      ensures Valid() && urlcounter == CounterAfter(old(urlcounter), [response])
      ensures |urls| > 1 ==>
                (urlcounter % |urls| != old(urlcounter) % |urls| <==> response !in [200, 404, 304])
    {
      if |urls| > 1 { MirrorChangesExactly(urlcounter, response, |urls|); }
      assert [response][..0] == [];
      if response != 200 && response != 404 && response != 304 {
        urlcounter := urlcounter + 1;
      }
    }
  }

  const CDN: string := "https://cdn.download.clearlinux.org/debuginfo/"
  const CDN_ALT: string := "https://cdn-alt.download.clearlinux.org/debuginfo/"

  lemma FirstUrls()
    ensures BuildUrl([CDN, CDN_ALT], 1, "lib", "/x") == "https://cdn-alt.download.clearlinux.org/debuginfo/lib/x.tar"
    ensures BuildUrl([CDN, CDN_ALT], 2, "lib", "/x") == "https://cdn.download.clearlinux.org/debuginfo/lib/x.tar"
  {
    assert CDN_ALT + "lib" + "/x" + ".tar" == "https://cdn-alt.download.clearlinux.org/debuginfo/lib/x.tar";
    assert CDN + "lib" + "/x" + ".tar" == "https://cdn.download.clearlinux.org/debuginfo/lib/x.tar";
  }

  /** The first request of a daemon without the variable goes to the second of the two mirrors; after a response
      it is not content with, the next one goes to the first. */
  method FirstUrlsExample() returns (url: string, next: string)
    ensures url == "https://cdn-alt.download.clearlinux.org/debuginfo/lib/x.tar"
    ensures next == "https://cdn.download.clearlinux.org/debuginfo/lib/x.tar"
  {
    hide BuildUrl, Serves, PrefixFree, Tokens;
    FirstUrls();
    var m := new Mirrors();
    var _ := m.ConfigureUrls(false, "");
    url := m.UrlFor("lib", "/x");
    m.Rotate(500);
    assert [500][..0] == [];
    next := m.UrlFor("lib", "/x");
  }
}
