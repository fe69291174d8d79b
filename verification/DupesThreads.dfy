/** Every interleaving of threads inside `avoid_dupes`: the calls linearise at the mutex. */
module DupesThreads {
  import opened Keys
  import opened Chains
  import opened Tables
  import opened Histories
  import opened Dupes
  import opened Words

  /** Where a thread stands. `asked` is the length of the log when its call began, `at` the place of
      its call in the log. */
  datatype Phase =
    | Outside
    | AtLock(url: Key, asked: nat)
    | Entered(url: Key, asked: nat)
    | Ready(url: Key, asked: nat)
    | Hit(url: Key, asked: nat, tm: nat)
    | Missed(url: Key, asked: nat)
    | Leaving(url: Key, asked: nat, answer: int, at: nat)
    | Done(url: Key, asked: nat, answer: int, at: nat)

  datatype Call = Call(thread: nat, url: string, now: int, answer: int)

  /** The mutex and its holder, the global table, the threads, and the calls in the order in which
      their clock reading took effect. */
  datatype State = State(mutex: Option<nat>, hash: Option<Table>, phases: map<nat, Phase>, log: seq<Call>)

  /** One thread takes one step; `Decide` reads the clock and, after a miss, stores the copy. */
  datatype Event =
    | Ask(t: nat, url: Key)
    | Lock(t: nat)
    | Create(t: nat)
    | Look(t: nat)
    | Decide(t: nat, now: int, dup: Key)
    | Unlock(t: nat)

  function PhaseOf(s: State, t: nat): Phase {
    if t in s.phases then s.phases[t] else Outside
  }

  function CurrentTable(s: State): Table {
    if s.hash.Some? then s.hash.value else NewTable()
  }

  ghost predicate Enabled(s: State, e: Event) {
    var p := PhaseOf(s, e.t);
    match e
    case Ask(_, url) => (p.Outside? || p.Done?) && url.Key?
    case Lock(_) => p.AtLock? && s.mutex.None?
    case Create(_) => p.Entered?
    case Look(_) => p.Ready? && s.hash.Some? && |s.hash.value.rows| > 0
    case Decide(_, _, dup) =>
      p.Hit? || (p.Missed? && |CurrentTable(s).rows| > 0 && Duplicate(CurrentTable(s), p.url, dup))
    case Unlock(_) => p.Leaving?
  }

  function Move(s: State, t: nat, p: Phase): State {
    s.(phases := s.phases[t := p])
  }

  ghost function After(s: State, e: Event): State
    requires Enabled(s, e)
  {
    var p := PhaseOf(s, e.t);
    match e
    case Ask(t, url) => Move(s, t, AtLock(url, |s.log|))
    case Lock(t) => Move(s.(mutex := Some(t)), t, Entered(p.url, p.asked))
    case Create(t) => Move(s.(hash := Some(CurrentTable(s))), t, Ready(p.url, p.asked))
    case Look(t) =>
      (match Get(StringOps(), s.hash.value, p.url)
       case Some(tm) => Move(s, t, Hit(p.url, p.asked, tm))
       case None => Move(s, t, Missed(p.url, p.asked)))
    case Decide(t, now, dup) =>
      var answer := if p.Hit? && Recent(now, p.tm) then 1 else 0;
      var s1 := Move(s, t, Leaving(p.url, p.asked, answer, |s.log|));
      var s2 := s1.(log := s.log + [Call(t, if p.url.Key? then p.url.text else "", now, answer)]);
      if p.Hit? then s2 else s2.(hash := Some(Put(StringOps(), CurrentTable(s), dup, Unsigned64(now)).0))
    case Unlock(t) => Move(s.(mutex := None), t, Done(p.url, p.asked, p.answer, p.at))
  }

  const START := State(None, None, map[], [])

  ghost predicate Possible(s: State, run: seq<Event>)
    decreases |run|
  {
    run != [] ==> Enabled(s, run[0]) && Possible(After(s, run[0]), run[1..])
  }

  ghost function Final(s: State, run: seq<Event>): State
    requires Possible(s, run)
    decreases |run|
  {
    if run == [] then s else Final(After(s, run[0]), run[1..])
  }

  // ---- The sequential meaning of the log ----

  function Seen(log: seq<Call>): Memory {
    if log == [] then map[]
    else
      var c := log[|log| - 1];
      Note(Seen(log[..|log| - 1]), c.url, c.now)
  }

  /** Every answer in the log is the sequential one. */
  ghost predicate Sequential(log: seq<Call>) {
    forall i :: 0 <= i < |log| ==> log[i].answer == Refused(Seen(log[..i]), log[i].url, log[i].now)
  }

  predicate Critical(p: Phase) {
    p.Entered? || p.Ready? || p.Hit? || p.Missed? || p.Leaving?
  }

  /** What a thread knows, and that its answer is the log's, within the time its call was open. */
  predicate PhaseOk(log: seq<Call>, hash: Option<Table>, t: nat, p: Phase) {
    var seen := Seen(log);
    match p
    case Outside => true
    case AtLock(url, asked) => url.Key? && asked <= |log|
    case Entered(url, asked) => url.Key? && asked <= |log|
    case Ready(url, asked) => url.Key? && asked <= |log| && hash.Some?
    case Hit(url, asked, tm) => url.Key? && asked <= |log| && hash.Some? && url.text in seen && seen[url.text] == tm
    case Missed(url, asked) => url.Key? && asked <= |log| && hash.Some? && url.text !in seen
    case Leaving(url, asked, answer, at) => url.Key? && Logged(log, t, url.text, asked, answer, at)
    case Done(url, asked, answer, at) => url.Key? && Logged(log, t, url.text, asked, answer, at)
  }

  predicate Logged(log: seq<Call>, t: nat, url: string, asked: nat, answer: int, at: nat) {
    asked <= at < |log| && log[at].thread == t && log[at].url == url && log[at].answer == answer
  }

  ghost predicate Good(s: State) {
    && (forall t: nat :: s.mutex == Some(t) <==> Critical(PhaseOf(s, t)))
    && (forall t: nat :: PhaseOk(s.log, s.hash, t, PhaseOf(s, t)))
    && Sequential(s.log)
    && (s.hash.None? ==> s.log == [])
    && Remembers(CurrentTable(s), Seen(s.log))
  }

  // ---- Proof ----

  lemma {:induction false} SeenAppend(log: seq<Call>, c: Call)
    ensures Seen(log + [c]) == Note(Seen(log), c.url, c.now)
  {
    assert (log + [c])[..|log|] == log;
  }

  lemma {:induction false} SequentialAppend(log: seq<Call>, c: Call)
    requires Sequential(log) && c.answer == Refused(Seen(log), c.url, c.now)
    ensures Sequential(log + [c])
  {
    forall i | 0 <= i < |log + [c]|
      ensures (log + [c])[i].answer == Refused(Seen((log + [c])[..i]), (log + [c])[i].url, (log + [c])[i].now)
    {
      assert (log + [c])[..i] == log[..i] && log[..|log|] == log;
    }
  }

  /** A thread outside the critical section does not notice another thread's entry in the log. */
  lemma {:induction false} OthersKeep(s: State, s': State, t: nat, c: Call)
    requires Good(s) && s.mutex == Some(t) && s'.log == s.log + [c] && s'.hash.Some?
    requires forall u: nat :: u != t ==> PhaseOf(s', u) == PhaseOf(s, u)
    ensures forall u: nat :: u != t ==> PhaseOk(s'.log, s'.hash, u, PhaseOf(s', u))
  {
    forall u: nat | u != t ensures PhaseOk(s'.log, s'.hash, u, PhaseOf(s', u)) {
      assert PhaseOk(s.log, s.hash, u, PhaseOf(s, u)) && !Critical(PhaseOf(s, u));
    }
  }

  lemma {:induction false} DecideKeeps(s: State, e: Event)
    requires Good(s) && e.Decide? && Enabled(s, e)
    ensures Good(After(s, e))
  {
    hide Remembers, Tables.Put, Duplicate, Sequential, Seen;
    var p, s', t := PhaseOf(s, e.t), After(s, e), e.t;
    assert PhaseOk(s.log, s.hash, t, p) && Critical(p);
    var c := s'.log[|s.log|];
    SeenAppend(s.log, c);
    SequentialAppend(s.log, c);
    if p.Missed? {
      PutRemembers(CurrentTable(s), Seen(s.log), p.url, e.dup, Unsigned64(e.now));
    }
    OthersKeep(s, s', t, c);
  }

  lemma {:induction false} StepKeeps(s: State, e: Event)
    requires Good(s) && Enabled(s, e)
    ensures Good(After(s, e))
  {
    hide Remembers, Tables.Put, Duplicate, Get;
    var p, s' := PhaseOf(s, e.t), After(s, e);
    assert PhaseOk(s.log, s.hash, e.t, p);
    if e.Decide? {
      DecideKeeps(s, e);
    } else {
      if e.Look? {
        LookupRemembers(s.hash.value, Seen(s.log), p.url);
      }
      forall u: nat ensures PhaseOk(s'.log, s'.hash, u, PhaseOf(s', u)) {
        assert PhaseOk(s.log, s.hash, u, PhaseOf(s, u));
      }
      forall u: nat ensures s'.mutex == Some(u) <==> Critical(PhaseOf(s', u)) {
        assert s.mutex == Some(u) <==> Critical(PhaseOf(s, u));
      }
    }
  }

  /** Every interleaving keeps mutual exclusion, the agreement of the table with the log, and that
      each finished call got the sequential answer at a point between its start and its end. */
  lemma {:induction false} RunKeeps(s: State, run: seq<Event>)
    requires Good(s) && Possible(s, run)
    ensures Good(Final(s, run))
    decreases |run|
  {
    if run != [] {
      StepKeeps(s, run[0]);
      RunKeeps(After(s, run[0]), run[1..]);
    }
  }

  lemma StartGood()
    ensures Good(START)
  {
    NewRemembers();
  }

  /** From the start of the daemon: at most one thread is inside, the answers in the order of the log are
      the sequential ones, each finished call is in the log at a place reached while it was open, and the
      table remembers exactly the URLs of the log. */
  lemma {:induction false} Linearises(run: seq<Event>)
    requires Possible(START, run)
    ensures var s := Final(START, run);
            && Good(s) && Sequential(s.log) && Remembers(CurrentTable(s), Seen(s.log))
            && (forall t: nat, u: nat :: Critical(PhaseOf(s, t)) && Critical(PhaseOf(s, u)) ==> t == u)
            && (forall t: nat :: var p := PhaseOf(s, t);
                  p.Done? ==> p.url.Key? && Logged(s.log, t, p.url.text, p.asked, p.answer, p.at))
  {
    hide Remembers, Sequential, Logged, Final, Possible;
    StartGood();
    RunKeeps(START, run);
    var s := Final(START, run);
    forall t: nat ensures var p := PhaseOf(s, t);
                          p.Done? ==> p.url.Key? && Logged(s.log, t, p.url.text, p.asked, p.answer, p.at)
    {
      assert PhaseOk(s.log, s.hash, t, PhaseOf(s, t));
    }
  }

  /** The lookup a thread makes in the critical section is on a table without cycles, so it ends. */
  lemma {:induction false} LookupsEnd(s: State, url: Key)
    requires Good(s) && url.Key?
    ensures |CurrentTable(s).rows| > 0
    ensures var b := CurrentTable(s).rows[Home(StringOps(), |CurrentTable(s).rows|, url)];
            Shaped(b) && CleanRow(b) && !Searching(StringOps(), b, url, |b.slots|)
  {
    var m :| Backed(CurrentTable(s), m, Seen(s.log));
    HomeShaped(StringOps(), CurrentTable(s), url);
    var b := CurrentTable(s).rows[Home(StringOps(), |CurrentTable(s).rows|, url)];
    FiniteIffNoBack(b);
    FiniteSearchEnds(StringOps(), b, url);
  }

  // ---- Every list of calls can happen ----

  lemma {:induction false} Prepend(s: State, e: Event, rest: seq<Event>)
    requires Enabled(s, e) && Possible(After(s, e), rest)
    ensures Possible(s, [e] + rest) && Final(s, [e] + rest) == Final(After(s, e), rest)
  {
    assert ([e] + rest)[1..] == rest;
  }

  lemma {:induction false} Append(s: State, run: seq<Event>, more: seq<Event>)
    requires Possible(s, run) && Possible(Final(s, run), more)
    ensures Possible(s, run + more) && Final(s, run + more) == Final(Final(s, run), more)
    decreases |run|
  {
    if run == [] {
      assert run + more == more;
    } else {
      Append(After(s, run[0]), run[1..], more);
      assert (run + more)[1..] == run[1..] + more;
    }
  }

  /** strdup always has an address to give. */
  lemma {:induction false} DuplicateExists(t: Table, url: Key) returns (dup: Key)
    requires url.Key?
    ensures Duplicate(t, url, dup)
  {
    var top := AddressBound(Entries(t.rows));
    dup := Key(top, url.text);
    forall x | x in Bag(t) && x.key.Key? ensures x.key.addr != top { assert x in Entries(t.rows); }
  }

  lemma {:induction false} AddressBound(es: seq<Slot>) returns (top: nat)
    ensures forall x :: x in es && x.key.Key? ==> x.key.addr < top
  {
    top := 0;
    if es != [] {
      top := AddressBound(es[1..]);
      if es[0].key.Key? && es[0].key.addr >= top { top := es[0].key.addr + 1; }
    }
  }

  predicate Idle(s: State, t: nat) {
    s.mutex.None? && (PhaseOf(s, t).Outside? || PhaseOf(s, t).Done?)
  }

  /** With the mutex free an idle thread can make any call, from its start to its end. */
  lemma {:induction false} CallHappens(s: State, t: nat, url: Key, now: int) returns (run: seq<Event>)
    requires Good(s) && Idle(s, t) && url.Key?
    ensures Possible(s, run) && Good(Final(s, run)) && Idle(Final(s, run), t)
    ensures Final(s, run).log == s.log + [Call(t, url.text, now, Refused(Seen(s.log), url.text, now))]
  {
    hide Good, Duplicate, Possible, Final;
    var s2 := Inside(s, t, url);
    var dup := DuplicateExists(CurrentTable(s2), url);
    StepKeeps(s2, Decide(t, now, dup));
    var s3 := After(s2, Decide(t, now, dup));
    StepKeeps(s3, Unlock(t));
    AnswerOf(s3);
    assert s3.log[..|s.log|] == s.log;
    var enter, leave := [Ask(t, url), Lock(t), Create(t), Look(t)], [Decide(t, now, dup), Unlock(t)];
    LeaveRun(s2, t, now, dup);
    Append(s, enter, leave);
    run := enter + leave;
  }

  lemma {:induction false} AnswerOf(s: State)
    requires Good(s) && s.log != []
    ensures var c := s.log[|s.log| - 1]; c.answer == Refused(Seen(s.log[..|s.log| - 1]), c.url, c.now)
  {
  }

  lemma {:induction false} LeaveRun(s: State, t: nat, now: int, dup: Key)
    requires Enabled(s, Decide(t, now, dup))
    ensures var s' := After(s, Decide(t, now, dup));
            && Enabled(s', Unlock(t))
            && Possible(s, [Decide(t, now, dup), Unlock(t)])
            && Final(s, [Decide(t, now, dup), Unlock(t)]) == After(s', Unlock(t))
  {
    var s' := After(s, Decide(t, now, dup));
    Prepend(s', Unlock(t), []);
    Prepend(s, Decide(t, now, dup), [Unlock(t)]);
    assert [Unlock(t)] + [] == [Unlock(t)] && [Decide(t, now, dup)] + [Unlock(t)] == [Decide(t, now, dup), Unlock(t)];
  }

  /** From idle to the point where the clock is read. */
  lemma {:induction false} Inside(s: State, t: nat, url: Key) returns (s': State)
    requires Good(s) && Idle(s, t) && url.Key?
    ensures var run := [Ask(t, url), Lock(t), Create(t), Look(t)]; Possible(s, run) && Final(s, run) == s'
    ensures Good(s') && s'.log == s.log && s'.mutex == Some(t) && |CurrentTable(s').rows| > 0
    ensures (PhaseOf(s', t).Hit? || PhaseOf(s', t).Missed?) && PhaseOf(s', t).url == url
  {
    hide Good, Possible, Final, Get;
    var a, l, c, k := Ask(t, url), Lock(t), Create(t), Look(t);
    StepKeeps(s, a);
    var s1 := After(s, a);
    StepKeeps(s1, l);
    var s2 := After(s1, l);
    StepKeeps(s2, c);
    var s3 := After(s2, c);
    LookupsEnd(s3, url);
    StepKeeps(s3, k);
    s' := After(s3, k);
    Nothing(s');
    assert [k] + [] == [k] && [c] + [k] == [c, k] && [l] + [c, k] == [l, c, k] && [a] + [l, c, k] == [a, l, c, k];
    Prepend(s3, k, []);
    Prepend(s2, c, [k]);
    Prepend(s1, l, [c, k]);
    Prepend(s, a, [l, c, k]);
  }

  lemma {:induction false} Nothing(s: State)
    ensures Possible(s, []) && Final(s, []) == s
  {
  }

  lemma NoCalls()
    ensures Possible(START, []) && Good(Final(START, [])) && Idle(Final(START, []), 0)
    ensures Matches(Final(START, []).log, [])
  {
    StartGood();
  }

  /** Every list of requests, at whatever clock readings, is the log of some run of the daemon. */
  lemma {:induction false} EveryLogHappens(calls: seq<(Key, int)>) returns (run: seq<Event>)
    requires forall i :: 0 <= i < |calls| ==> calls[i].0.Key?
    ensures Possible(START, run) && Good(Final(START, run)) && Idle(Final(START, run), 0)
    ensures Matches(Final(START, run).log, calls)
  {
    hide Good, Possible, Final, Idle, Matches, Seen, Refused, PhaseOf;
    run := [];
    if calls == [] {
      NoCalls();
    } else {
      var u, c := calls[..|calls| - 1], calls[|calls| - 1];
      run := EveryLogHappens(u);
      var log := Final(START, run).log;
      var more := CallHappens(Final(START, run), 0, c.0, c.1);
      Append(START, run, more);
      MatchesNext(log, u, Call(0, c.0.text, c.1, Refused(Seen(log), c.0.text, c.1)), c);
      assert u + [c] == calls;
      run := run + more;
    }
  }

  /** The log is for these calls. */
  predicate Matches(log: seq<Call>, calls: seq<(Key, int)>) {
    && |log| == |calls|
    && forall i :: 0 <= i < |calls| ==>
         calls[i].0.Key? && log[i].url == calls[i].0.text && log[i].now == calls[i].1
  }

  lemma {:induction false} MatchesNext(log: seq<Call>, calls: seq<(Key, int)>, l: Call, c: (Key, int))
    requires Matches(log, calls) && c.0.Key? && l.url == c.0.text && l.now == c.1
    ensures Matches(log + [l], calls + [c])
  {
  }
}
