/** URL building, and how many fetches of one request get past the duplicate suppression. */
module Fetches {
  import opened Keys
  import opened Dupes
  import opened DupesThreads
  import opened Words

  /** `"%s%s%s.tar"` on the mirror that the rotating counter selects. */
  function BuildUrl(bases: seq<string>, counter: nat, prefix: string, path: string): string
    requires |bases| > 0
  {
    bases[counter % |bases|] + prefix + path + ".tar"
  }

  /** No base URL is a prefix of another. */
  predicate PrefixFree(bases: seq<string>) {
    forall i, j :: 0 <= i < |bases| && 0 <= j < |bases| && i != j ==> !(bases[i] <= bases[j])
  }

  lemma {:induction false} SamePrefix(b: string, c: string, x: string, y: string)
    requires b + x == c + y && |b| <= |c|
    ensures b <= c
  {
    assert b == (b + x)[..|b|] == (c + y)[..|b|] == c[..|b|];
  }

  /** The daemon only builds URLs for the prefixes "lib" and "src", so a URL tells mirror, prefix and
      path apart. */
  lemma {:induction false} UrlInjective(bases: seq<string>, i: nat, prefix: string, path: string,
                                           j: nat, prefix': string, path': string)
    requires |bases| > 0 && PrefixFree(bases) && prefix in ["lib", "src"] && prefix' in ["lib", "src"]
    requires BuildUrl(bases, i, prefix, path) == BuildUrl(bases, j, prefix', path')
    ensures i % |bases| == j % |bases| && prefix == prefix' && path == path'
  {
    var b, c := bases[i % |bases|], bases[j % |bases|];
    var x, y := prefix + path + ".tar", prefix' + path' + ".tar";
    assert BuildUrl(bases, i, prefix, path) == b + x && BuildUrl(bases, j, prefix', path') == c + y;
    if |b| <= |c| { SamePrefix(b, c, x, y); } else { SamePrefix(c, b, y, x); }
    assert b == c;
    assert x == (b + x)[|b|..] == (c + y)[|c|..] == y;
    assert prefix == x[..3] == y[..3] == prefix';
    assert path == x[3..|x| - 4] == y[3..|y| - 4] == path';
  }

  predicate Serves(bases: seq<string>, prefix: string, path: string, url: string) {
    |bases| > 0 && exists i :: 0 <= i < |bases| && url == BuildUrl(bases, i, prefix, path)
  }

  /** Clock readings in the range of a non-negative `time_t`. */
  predicate InRange(log: seq<Call>) {
    forall i :: 0 <= i < |log| ==> 0 <= log[i].now < 0x8000_0000_0000_0000
  }

  /** A clock in range that does not run backwards. */
  predicate Ticking(log: seq<Call>) {
    && InRange(log)
    && (forall i, j :: 0 <= i < j < |log| ==> log[i].now <= log[j].now)
  }

  /** A remembered URL was called for, and its time is that of the first such call. */
  lemma {:induction false} FirstSighting(log: seq<Call>, url: string) returns (i: nat)
    requires url in Seen(log)
    ensures i < |log| && log[i].url == url && Seen(log)[url] == Unsigned64(log[i].now)
    ensures forall j :: 0 <= j < i ==> log[j].url != url
  {
    var u := log[..|log| - 1];
    if url in Seen(u) {
      i := FirstSighting(u, url);
    } else {
      i := |log| - 1;
      forall j | 0 <= j < i ensures log[j].url != url {
        if log[j].url == url { CalledIsSeen(u, j); }
      }
    }
  }

  lemma {:induction false} CalledIsSeen(log: seq<Call>, j: nat)
    requires j < |log|
    ensures log[j].url in Seen(log)
  {
    var n := |log| - 1;
    if j < n {
      assert log[..n][j] == log[j];
      CalledIsSeen(log[..n], j);
    }
  }

  /** Call i is the first one for the URL of call j, and comes before it. */
  ghost predicate FirstFor(log: seq<Call>, i: nat, j: nat)
    requires j < |log|
  {
    i < j && log[i].url == log[j].url && forall h :: 0 <= h < i ==> log[h].url != log[j].url
  }

  lemma {:induction false} SeenFirst(log: seq<Call>, j: nat) returns (i: nat)
    requires j < |log|
    ensures log[j].url in Seen(log[..j]) <==> FirstFor(log, i, j)
    ensures FirstFor(log, i, j) ==> Seen(log[..j])[log[j].url] == Unsigned64(log[i].now)
    ensures forall i' :: FirstFor(log, i', j) ==> i' == i
  {
    var u, url := log[..j], log[j].url;
    i := 0;
    if url in Seen(u) {
      i := FirstSighting(u, url);
      assert u[i] == log[i];
      forall h | 0 <= h < i ensures log[h].url != url { assert u[h] == log[h]; }
    } else {
      forall i' | 0 <= i' < j ensures log[i'].url != url {
        CalledIsSeen(u, i');
        assert u[i'] == log[i'];
      }
    }
  }

  /** A call is refused exactly if the very same URL was called for before, and the clock is at, or less than
      600 seconds past, the first such call. Should it run backwards behind that call, nothing is refused. */
  lemma {:induction false} RefusedExactly(log: seq<Call>, j: nat)
    requires Sequential(log) && InRange(log) && j < |log|
    ensures log[j].answer == 1 <==> exists i: nat :: FirstFor(log, i, j) && 0 <= log[j].now - log[i].now < 600
    ensures log[j].answer == 0 || log[j].answer == 1
  {
    hide Seen, FirstFor, Recent, Unsigned64;
    var i := SeenFirst(log, j);
    assert log[j].answer == Refused(Seen(log[..j]), log[j].url, log[j].now);
    if FirstFor(log, i, j) {
      FirstIsBefore(log, i, j);
      RecentExactly(log[i].now, log[j].now);
    }
  }

  lemma {:induction false} FirstIsBefore(log: seq<Call>, i: nat, j: nat)
    requires j < |log| && FirstFor(log, i, j)
    ensures i < j
  {
  }

  /** The unsigned difference of two clock readings, in seconds. */
  lemma {:induction false} RecentExactly(tm: int, now: int)
    requires 0 <= tm < 0x8000_0000_0000_0000 && 0 <= now < 0x8000_0000_0000_0000
    ensures Recent(now, Unsigned64(tm)) <==> 0 <= now - tm < 600
  {
  }

  /** The first sighting is never renewed: once it is 600 seconds old, every call for its URL is admitted,
      however short a time after the previous one. */
  lemma {:induction false} NeverRenewed(log: seq<Call>, i: nat, j: nat)
    requires Sequential(log) && InRange(log) && j < |log| && FirstFor(log, i, j)
    requires log[j].now >= log[i].now + 600
    ensures log[j].answer == 0
  {
    hide Seen, InRange;
    RefusedExactly(log, j);
    var first := SeenFirst(log, j);
  }

  /** And that does happen: a run of the daemon that fetches one URL, refuses it 599 seconds later, and fetches
      it twice within the next second. */
  lemma ReadmittedExample() returns (run: seq<Event>)
    ensures Possible(START, run)
    ensures var log := Final(START, run).log;
            && |log| == 4 && Ticking(log)
            && (forall i :: 0 <= i < 4 ==> log[i].url == "u" && log[i].answer == if i == 1 then 1 else 0)
            && log[0].now == 0 && log[1].now == 599 && log[2].now == 600 == log[3].now
  {
    hide Seen, Possible, Final, Sequential, Ticking, InRange, FirstFor;
    var u := Key(1, "u");
    run := EveryLogHappens([(u, 0), (u, 599), (u, 600), (u, 600)]);
    Linearises(run);
    var log := Final(START, run).log;
    FourCalls(log);
    RefusedExactly(log, 1);
    NeverRenewed(log, 0, 2);
    NeverRenewed(log, 0, 3);
    FirstCall(log);
  }

  lemma {:induction false} FourCalls(log: seq<Call>)
    requires |log| == 4 && (forall i :: 0 <= i < 4 ==> log[i].url == "u")
    requires log[0].now == 0 && log[1].now == 599 && log[2].now == 600 == log[3].now
    ensures Ticking(log) && InRange(log) && FirstFor(log, 0, 1) && FirstFor(log, 0, 2) && FirstFor(log, 0, 3)
  {
  }

  lemma {:induction false} FirstCall(log: seq<Call>)
    requires Sequential(log) && log != []
    ensures log[0].answer == 0
  {
    assert log[..0] == [];
  }

  /** No request is refused on account of another one: the earlier call that it is refused for asked for
      the same path under the same prefix, on the same mirror. */
  lemma {:induction false} RefusedForItself(bases: seq<string>, counter: nat, prefix: string, path: string,
                                            log: seq<Call>, j: nat)
    requires Sequential(log) && InRange(log) && j < |log| && log[j].answer == 1
    requires |bases| > 0 && PrefixFree(bases) && prefix in ["lib", "src"]
    requires log[j].url == BuildUrl(bases, counter, prefix, path)
    ensures exists i :: 0 <= i < j && 0 <= log[j].now - log[i].now < 600
                        && OnlyFor(bases, log[i].url, counter % |bases|, prefix, path)
  {
    RefusedExactly(log, j);
    var i: nat :| FirstFor(log, i, j) && 0 <= log[j].now - log[i].now < 600;
    forall n: nat, q, p | q in ["lib", "src"] && log[i].url == BuildUrl(bases, n, q, p)
      ensures n % |bases| == counter % |bases| && q == prefix && p == path
    {
      UrlInjective(bases, n, q, p, counter, prefix, path);
    }
  }

  /** Whichever way the daemon built this URL, it was for this mirror, prefix and path. */
  ghost predicate OnlyFor(bases: seq<string>, url: string, mirror: nat, prefix: string, path: string) {
    && |bases| > 0
    && forall n: nat, q, p ::
         q in ["lib", "src"] && url == BuildUrl(bases, n, q, p)
         ==> n % |bases| == mirror && q == prefix && p == path
  }

  /** The admitted fetches of one request within 600 seconds of its first call. */
  ghost function Admitted(bases: seq<string>, prefix: string, path: string, log: seq<Call>, first: nat): set<nat>
    requires first < |log|
  {
    set j: nat | j < |log| && Serves(bases, prefix, path, log[j].url) && log[j].answer == 0
                 && log[j].now < log[first].now + 600
  }

  /** In that window a URL is admitted once. */
  lemma {:induction false} AdmittedOnce(bases: seq<string>, prefix: string, path: string,
                                           log: seq<Call>, first: nat, i: nat, j: nat)
    requires Sequential(log) && Ticking(log) && first < |log|
    requires forall h :: 0 <= h < first ==> !Serves(bases, prefix, path, log[h].url)
    requires i in Admitted(bases, prefix, path, log, first) && j in Admitted(bases, prefix, path, log, first)
    requires log[i].url == log[j].url
    ensures i == j
  {
    if i < j { LaterRefused(bases, prefix, path, log, first, i, j); }
    if j < i { LaterRefused(bases, prefix, path, log, first, j, i); }
  }

  lemma {:induction false} LaterRefused(bases: seq<string>, prefix: string, path: string,
                                           log: seq<Call>, first: nat, i: nat, j: nat)
    requires Sequential(log) && Ticking(log) && first < |log| && i < j < |log|
    requires forall h :: 0 <= h < first ==> !Serves(bases, prefix, path, log[h].url)
    requires Serves(bases, prefix, path, log[j].url) && log[i].url == log[j].url
    requires log[j].now < log[first].now + 600
    ensures log[j].answer == 1
  {
    CalledIsSeen(log[..j], i);
    var e := SeenFirst(log, j);
    assert e >= first;
    RefusedExactly(log, j);
  }

  lemma {:induction false} Pigeonhole(a: set<nat>, f: map<nat, nat>, n: nat)
    requires forall x :: x in a ==> x in f && f[x] < n
    requires forall x, y :: x in a && y in a && f[x] == f[y] ==> x == y
    ensures |a| <= n
    decreases n
  {
    if n > 0 {
      if x :| x in a && f[x] == n - 1 {
        Pigeonhole(a - {x}, f, n - 1);
      } else {
        Pigeonhole(a, f, n - 1);
      }
    } else {
      assert forall x :: x !in a;
    }
  }

  /** However the counter rotates, in the 600 seconds after the first request for a prefix and path at
      most one fetch per mirror is admitted. */
  lemma {:induction false} FetchBound(bases: seq<string>, prefix: string, path: string, log: seq<Call>, first: nat)
    requires Sequential(log) && Ticking(log) && first < |log|
    requires forall h :: 0 <= h < first ==> !Serves(bases, prefix, path, log[h].url)
    ensures |Admitted(bases, prefix, path, log, first)| <= |bases|
  {
    var a := Admitted(bases, prefix, path, log, first);
    var f: map<nat, nat> := map j | j in a :: MirrorOf(bases, prefix, path, log[j].url);
    forall x, y | x in a && y in a && f[x] == f[y] ensures x == y {
      AdmittedOnce(bases, prefix, path, log, first, x, y);
    }
    Pigeonhole(a, f, |bases|);
  }

  /** The same for the daemon itself: in every interleaving of its threads, from its start. */
  lemma {:induction false} FetchBoundInEveryRun(bases: seq<string>, prefix: string, path: string,
                                                run: seq<Event>, first: nat)
    requires Possible(START, run) && Ticking(Final(START, run).log) && first < |Final(START, run).log|
    requires forall h :: 0 <= h < first ==> !Serves(bases, prefix, path, Final(START, run).log[h].url)
    ensures |Admitted(bases, prefix, path, Final(START, run).log, first)| <= |bases|
  {
    hide Possible, Final, Ticking, Serves, Sequential, Admitted;
    Linearises(run);
    FetchBound(bases, prefix, path, Final(START, run).log, first);
  }

  ghost function MirrorOf(bases: seq<string>, prefix: string, path: string, url: string): (i: nat)
    requires Serves(bases, prefix, path, url)
    ensures i < |bases| && url == BuildUrl(bases, i, prefix, path)
  {
    var i :| 0 <= i < |bases| && url == BuildUrl(bases, i, prefix, path);
    i
  }
}
