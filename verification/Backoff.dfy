/** The client's wait for the daemon: full-length waits are rationed by `deadtime`. */
module Backoff {
  const TIMEOUT: nat := 75000
  const TIMEOUT2: nat := 1500
  const PAUSE: int := 4

  /** What select() did: woke up after some microseconds, timed out, or failed. */
  datatype Poll = Ready(usec: nat) | TimedOut | Failed

  /** One call and its environment: whether the daemon was reached and the request printed, the
      timestamp, the clock before the wait and after it, and what select() would do. */
  datatype Attempt = Attempt(reached: bool, timestamp: int, before: int, after: int, poll: Poll)

  /** Microseconds waited, whether that was a timeout, and whether the limit was the full one. */
  datatype Report = Report(waited: nat, timedOut: bool, full: bool)

  const NO_WAIT := Report(0, false, false)

  function Limit(deadtime: int, now: int): nat {
    if deadtime > now then TIMEOUT2 else TIMEOUT
  }

  function TryStep(deadtime: int, a: Attempt): (int, Report) {
    if !a.reached || a.timestamp != 0 then (deadtime, NO_WAIT)
    else
      var limit := Limit(deadtime, a.before);
      match a.poll
      case Ready(usec) => (deadtime, Report(if usec < limit then usec else limit, false, false))
      case TimedOut =>
        var full := limit == TIMEOUT;
        (if full then a.after + PAUSE else deadtime, Report(limit, true, full))
      case Failed => (deadtime, NO_WAIT)
  }

  class Client {
    /** The global: until this second only short waits are allowed. */
    var deadtime: int

    constructor ()
      ensures deadtime == 0
    {
      deadtime := 0;
    }

    /** `try_to_get` from the connection on. */
    method TryToGet(a: Attempt) returns (r: Report)
      modifies this
      ensures (deadtime, r) == TryStep(old(deadtime), a)
    {
      r := NO_WAIT;
      if !a.reached {
        return;
      }
      var usec := TIMEOUT;
      var shorttime := false;
      if deadtime > a.before {
        usec := TIMEOUT2;
        shorttime := true;
      }
      var ret := 1;
      if a.timestamp == 0 {
        match a.poll {
          case Ready(u) =>
            r := Report(if u < usec then u else usec, false, false);
          case TimedOut =>
            ret := 0;
            r := Report(usec, true, !shorttime);
          case Failed =>
            ret := -1;
        }
      }
      if ret == 0 && !shorttime {
        deadtime := a.after + PAUSE;
      }
    }
  }

  // ---- Runs ----

  /** deadtime after a run of calls. */
  function Dead(d: int, run: seq<Attempt>): int {
    if run == [] then d else TryStep(Dead(d, run[..|run| - 1]), run[|run| - 1]).0
  }

  /** The report of the i-th call. */
  function ReportAt(d: int, run: seq<Attempt>, i: nat): Report
    requires i < |run|
  {
    TryStep(Dead(d, run[..i]), run[i]).1
  }

  function FullTimeouts(d: int, run: seq<Attempt>): nat {
    if run == [] then 0
    else FullTimeouts(d, run[..|run| - 1]) + if ReportAt(d, run, |run| - 1).full then 1 else 0
  }

  /** Microseconds spent in waits that timed out. */
  function TimedOutWaiting(d: int, run: seq<Attempt>): nat {
    if run == [] then 0
    else
      var r := ReportAt(d, run, |run| - 1);
      TimedOutWaiting(d, run[..|run| - 1]) + if r.timedOut then r.waited else 0
  }

  /** A clock that does not run backwards, within a call and from call to call. */
  predicate Monotone(run: seq<Attempt>) {
    && (forall i :: 0 <= i < |run| ==> run[i].before <= run[i].after)
    && (forall i, j :: 0 <= i < j < |run| ==> run[i].after <= run[j].before)
  }

  /** After a full timeout deadtime stays at its end plus four until the next full one. */
  lemma {:induction false} DeadSince(d: int, run: seq<Attempt>, i: nat, j: nat)
    requires i < j <= |run| && ReportAt(d, run, i).full && Monotone(run)
    ensures Dead(d, run[..j]) >= run[i].after + 4
  {
    var p := run[..j];
    assert p[..j - 1] == run[..j - 1];
    if j == i + 1 {
      assert Dead(d, p) == run[i].after + 4;
    } else {
      DeadSince(d, run, i, j - 1);
    }
  }

  /** A full-length timeout starts at least four clock seconds after the previous one ended. */
  lemma {:induction false} FullTimeoutsApart(d: int, run: seq<Attempt>, i: nat, j: nat)
    requires i < j < |run| && Monotone(run) && ReportAt(d, run, i).full && ReportAt(d, run, j).full
    ensures run[j].before >= run[i].after + 4
  {
    DeadSince(d, run, i, j);
  }

  /** Clock seconds from the start of the first call to the end of the last. */
  function Span(run: seq<Attempt>): int
    requires run != []
  {
    run[|run| - 1].after - run[0].before
  }

  /** With n full timeouts so far: n - 1 pauses fit before the last one, whose end set deadtime. */
  lemma {:induction false} Rationed(d: int, run: seq<Attempt>)
    requires run != [] && Monotone(run)
    ensures var n := FullTimeouts(d, run);
            && (n > 0 ==> 4 * (n - 1) <= Dead(d, run) - 4 - run[0].before
                          && Dead(d, run) - 4 <= run[|run| - 1].after)
            && TimedOutWaiting(d, run) <= 75000 * n + 1500 * |run|
  {
    var u, a := run[..|run| - 1], run[|run| - 1];
    if u != [] {
      Rationed(d, u);
      assert u[0] == run[0] && u[|u| - 1].after <= a.before;
    }
  }

  /** Over any run: n full timeouts need 4 * (n - 1) seconds, and the time lost in timeouts is bounded
      by the clock and the number of calls. */
  lemma {:induction false} TimeoutBudget(d: int, run: seq<Attempt>)
    requires run != [] && Monotone(run)
    ensures var n := FullTimeouts(d, run);
            && (n > 0 ==> 4 * (n - 1) <= Span(run))
            && Span(run) >= 0
            && TimedOutWaiting(d, run) <= 75000 * (Span(run) / 4 + 1) + 1500 * |run|
  {
    Rationed(d, run);
    assert |run| > 1 ==> run[0].after <= run[|run| - 1].before;
    var n := FullTimeouts(d, run);
    assert n <= Span(run) / 4 + 1;
    assert 75000 * n <= 75000 * (Span(run) / 4 + 1);
  }

  /** A request that carries a timestamp never waits and leaves deadtime alone; any other wait is at most
      the full limit, and the full limit is used only when deadtime has passed. */
  lemma {:induction false} WaitLimits(d: int, a: Attempt)
    ensures var (d', r) := TryStep(d, a);
            && (a.timestamp != 0 ==> r.waited == 0 && d' == d)
            && r.waited <= (if d > a.before then 1500 else 75000)
            && (d' != d ==> r.full && r.waited == 75000 && d <= a.before)
  {
  }

  /** The request was printed without a timestamp and select() timed out. */
  predicate TimesOut(a: Attempt) {
    a.reached && a.timestamp == 0 && a.poll.TimedOut?
  }

  /** deadtime of a client that started with none: 0, or four seconds past the end of a full timeout. */
  lemma {:induction false} DeadIs(run: seq<Attempt>, i: nat)
    requires i <= |run|
    ensures Dead(0, run[..i]) == 0
            || exists j :: 0 <= j < i && ReportAt(0, run, j).full && Dead(0, run[..i]) == run[j].after + 4
  {
    if i > 0 {
      DeadIs(run, i - 1);
      assert run[..i][..i - 1] == run[..i - 1];
      if ReportAt(0, run, i - 1).full {
        assert Dead(0, run[..i]) == run[i - 1].after + 4;
      }
    }
  }

  /** A full timeout ended less than four clock seconds before call i begins. */
  predicate Recently(run: seq<Attempt>, i: nat)
    requires i < |run|
  {
    exists j :: 0 <= j < i && ReportAt(0, run, j).full && run[i].before < run[j].after + 4
  }

  lemma {:induction false} ShortExactly(run: seq<Attempt>, i: nat)
    requires Monotone(run) && i < |run| && run[0].before >= 0
    ensures Dead(0, run[..i]) > run[i].before <==> Recently(run, i)
  {
    DeadIs(run, i);
    assert run[i].before >= 0;
    if j :| 0 <= j < i && ReportAt(0, run, j).full && run[i].before < run[j].after + 4 { DeadSince(0, run, j, i); }
  }

  /** When a fresh client waits how long: a call that times out is a full timeout iff no full timeout ended less
      than four seconds before it begins. A full one takes 75000 microseconds and sets deadtime to four seconds
      past its end; another one takes 1500 and leaves deadtime alone. An answer ends the wait earlier. */
  lemma {:induction false} WaitsExactly(run: seq<Attempt>, i: nat)
    requires Monotone(run) && i < |run| && run[0].before >= 0
    ensures var r, a := ReportAt(0, run, i), run[i]; var limit := if Recently(run, i) then 1500 else 75000;
            && (r.timedOut <==> TimesOut(a))
            && (r.full <==> TimesOut(a) && !Recently(run, i))
            && (TimesOut(a) ==> r.waited == limit)
            && (a.reached && a.timestamp == 0 && a.poll.Ready? ==>
                  r.waited == if a.poll.usec < limit then a.poll.usec else limit)
            && (!a.reached || a.timestamp != 0 || a.poll.Failed? ==> r.waited == 0)
    ensures Dead(0, run[..i + 1]) == if ReportAt(0, run, i).full then run[i].after + 4 else Dead(0, run[..i])
  {
    ShortExactly(run, i);
    assert run[..i + 1][..i] == run[..i];
  }
}
