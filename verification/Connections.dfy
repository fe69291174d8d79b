/** The accept loop and its detached threads: the connection counter and the life of each descriptor,
    in every interleaving. */
module Connections {
  const MAX_CONNECTIONS: nat := 16

  /** Where the accept loop stands; connections are numbered in the order of accept(). */
  datatype Loop =
    | AtSelect
    | Accepted(id: nat)   // accept() returned, count not read yet
    | Admitted(id: nat)   // the count read was below the limit
    | Counted(id: nat)    // counter incremented, thread not created yet
    | Exited

  /** A server thread: serving, or its descriptor closed and the counter not decremented yet. */
  datatype Thread = Serving | Closing

  /** `fds` is what accept() returned (negative: it failed), `closes` how often each was closed, `lost`
      the connections whose pthread_create failed. */
  datatype State = State(loop: Loop, counter: int, threads: map<nat, Thread>,
                         fds: seq<int>, closes: seq<nat>, lost: set<nat>)

  datatype Event =
    | Accept(fd: int)
    | ReadCount
    | Increment
    | Create(ok: bool)
    | CloseFd(id: nat)
    | Decrement(id: nat)
    | SelectTimeout

  const START := State(AtSelect, 0, map[], [], [], {})

  /** accept() gives no number that is still open. */
  predicate Free(s: State, fd: int) {
    fd >= 0 ==> forall id :: 0 <= id < |s.fds| && Open(s, id) ==> s.fds[id] != fd
  }

  predicate Enabled(s: State, e: Event) {
    match e
    case Accept(fd) => s.loop.AtSelect? && Free(s, fd)
    case ReadCount => s.loop.Accepted? && s.loop.id < |s.fds| == |s.closes|
    case Increment => s.loop.Admitted?
    case Create(_) => s.loop.Counted?
    case CloseFd(id) => id in s.threads && s.threads[id].Serving? && id < |s.fds| == |s.closes|
    case Decrement(id) => id in s.threads && s.threads[id].Closing?
    case SelectTimeout => s.loop.AtSelect?
  }

  /** close() of what accept() returned: a failed accept has no descriptor. */
  function Closed(s: State, id: nat): seq<nat>
    requires id < |s.fds| == |s.closes|
  {
    if s.fds[id] >= 0 then s.closes[id := s.closes[id] + 1] else s.closes
  }

  function After(s: State, e: Event): State
    requires Enabled(s, e)
  {
    match e
    case Accept(fd) => s.(loop := Accepted(|s.fds|), fds := s.fds + [fd], closes := s.closes + [0])
    case ReadCount =>
      if s.counter >= MAX_CONNECTIONS then s.(loop := AtSelect, closes := Closed(s, s.loop.id))
      else s.(loop := Admitted(s.loop.id))
    case Increment => s.(loop := Counted(s.loop.id), counter := s.counter + 1)
    case Create(ok) =>
      if ok then s.(loop := AtSelect, threads := s.threads[s.loop.id := Serving])
      else s.(loop := AtSelect, lost := s.lost + {s.loop.id})
    case CloseFd(id) => s.(threads := s.threads[id := Closing], closes := Closed(s, id))
    case Decrement(id) => s.(threads := s.threads - {id}, counter := s.counter - 1)
    case SelectTimeout => s.(loop := Exited)
  }

  predicate Possible(s: State, run: seq<Event>)
    decreases |run|
  {
    run != [] ==> Enabled(s, run[0]) && Possible(After(s, run[0]), run[1..])
  }

  function Final(s: State, run: seq<Event>): State
    requires Possible(s, run)
    decreases |run|
  {
    if run == [] then s else Final(After(s, run[0]), run[1..])
  }

  predicate HeldByLoop(s: State, id: nat) {
    (s.loop.Accepted? || s.loop.Admitted? || s.loop.Counted?) && s.loop.id == id
  }

  /** Nobody has closed the descriptor yet: the loop has it, or a thread still serving, or no one. */
  predicate Open(s: State, id: nat) {
    HeldByLoop(s, id) || (id in s.threads && s.threads[id].Serving?) || id in s.lost
  }

  /** Threads not finished, the one being started, and creations that failed. */
  ghost predicate CounterOk(s: State) {
    && s.counter == |s.threads| + (if s.loop.Counted? then 1 else 0) + |s.lost|
    && 0 <= s.counter <= MAX_CONNECTIONS
    && (s.loop.Admitted? ==> s.counter < MAX_CONNECTIONS)
  }

  /** Each descriptor is closed once as soon as nobody has it, and not before. */
  predicate ClosesOk(s: State) {
    && |s.closes| == |s.fds|
    && forall id :: 0 <= id < |s.fds| ==> s.closes[id] == if Open(s, id) || s.fds[id] < 0 then 0 else 1
  }

  /** Nothing is held twice. */
  ghost predicate HoldersOk(s: State) {
    && (forall id: nat :: HeldByLoop(s, id) ==> id < |s.fds| && id !in s.threads && id !in s.lost)
    && (forall id: nat :: id in s.threads ==> id < |s.fds| && id !in s.lost)
    && (forall id: nat :: id in s.lost ==> id < |s.fds|)
  }

  /** No two open connections share a descriptor number. */
  predicate FdsOk(s: State) {
    forall i, j :: 0 <= i < j < |s.fds| && Open(s, i) && Open(s, j) && s.fds[i] >= 0 ==> s.fds[i] != s.fds[j]
  }

  ghost predicate Good(s: State) {
    CounterOk(s) && ClosesOk(s) && HoldersOk(s) && FdsOk(s)
  }

  lemma {:induction false} CounterStep(s: State, e: Event)
    requires CounterOk(s) && HoldersOk(s) && Enabled(s, e)
    ensures CounterOk(After(s, e))
  {
    var s' := After(s, e);
    if e.Decrement? {
      assert s'.threads.Keys == s.threads.Keys - {e.id};
      assert |s'.threads| == |s'.threads.Keys| && |s.threads| == |s.threads.Keys|;
    } else if e.CloseFd? {
      assert s'.threads.Keys == s.threads.Keys;
      assert |s'.threads| == |s'.threads.Keys| && |s.threads| == |s.threads.Keys|;
    } else if e.Create? {
      assert HeldByLoop(s, s.loop.id);
    }
  }

  lemma {:induction false} ClosesStep(s: State, e: Event)
    requires ClosesOk(s) && HoldersOk(s) && Enabled(s, e)
    ensures ClosesOk(After(s, e))
  {
    var s' := After(s, e);
    if e.ReadCount? || e.Create? { assert HeldByLoop(s, s.loop.id); }
    forall id: nat | id < |s'.fds| ensures s'.closes[id] == if Open(s', id) || s'.fds[id] < 0 then 0 else 1 {
      if id < |s.fds| { assert s.closes[id] == if Open(s, id) || s.fds[id] < 0 then 0 else 1; }
    }
  }

  lemma {:induction false} HoldersStep(s: State, e: Event)
    requires HoldersOk(s) && Enabled(s, e)
    ensures HoldersOk(After(s, e))
  {
    if s.loop.Accepted? || s.loop.Admitted? || s.loop.Counted? { assert HeldByLoop(s, s.loop.id); }
  }

  lemma {:induction false} FdsStep(s: State, e: Event)
    requires FdsOk(s) && HoldersOk(s) && Enabled(s, e)
    ensures FdsOk(After(s, e))
  {
    var s' := After(s, e);
    forall id: nat | id < |s.fds| && Open(s', id) ensures Open(s, id) && s'.fds[id] == s.fds[id] {
    }
    forall i, j | 0 <= i < j < |s'.fds| && Open(s', i) && Open(s', j) && s'.fds[i] >= 0 ensures s'.fds[i] != s'.fds[j] {
      if j < |s.fds| { assert Open(s, i) && Open(s, j); }
    }
  }

  lemma {:induction false} StepKeeps(s: State, e: Event)
    requires Good(s) && Enabled(s, e)
    ensures Good(After(s, e))
  {
    CounterStep(s, e);
    ClosesStep(s, e);
    HoldersStep(s, e);
    FdsStep(s, e);
  }

  /** The connection whose descriptor an event closes. */
  function ClosedBy(s: State, e: Event): int {
    if e.CloseFd? then e.id
    else if e.ReadCount? && s.loop.Accepted? && s.counter >= MAX_CONNECTIONS then s.loop.id
    else -1
  }

  /** A close hits the descriptor of its own connection and of no other open one. */
  lemma {:induction false} CloseHitsOwn(s: State, e: Event, other: nat)
    requires Good(s) && Enabled(s, e) && ClosedBy(s, e) >= 0
    requires other < |s.fds| && Open(s, other) && other != ClosedBy(s, e)
    ensures ClosedBy(s, e) < |s.fds| && (s.fds[ClosedBy(s, e)] >= 0 ==> s.fds[other] != s.fds[ClosedBy(s, e)])
    ensures Open(s, ClosedBy(s, e)) && !Open(After(s, e), ClosedBy(s, e)) && Open(After(s, e), other)
  {
    var id := ClosedBy(s, e);
    assert HeldByLoop(s, id) || id in s.threads;
  }

  /** In every interleaving the counter is exact and bounded, and no descriptor is closed twice, or
      while someone still has it. */
  lemma {:induction false} RunKeeps(s: State, run: seq<Event>)
    requires Good(s) && Possible(s, run)
    ensures Good(Final(s, run))
    decreases |run|
  {
    if run != [] {
      StepKeeps(s, run[0]);
      RunKeeps(After(s, run[0]), run[1..]);
    }
  }

  lemma {:induction false} CounterExact(run: seq<Event>)
    requires Possible(START, run)
    ensures var s := Final(START, run);
            && Good(s)
            && s.counter == |s.threads| + (if s.loop.Counted? then 1 else 0) + |s.lost|
            && 0 <= s.counter <= 16
  {
    RunKeeps(START, run);
  }

  /** Without failed creations each accepted descriptor is closed exactly once: it is still open only
      while the loop or its thread has it. */
  lemma {:induction false} ClosedExactlyOnce(run: seq<Event>, id: nat)
    requires Possible(START, run)
    requires forall i :: 0 <= i < |run| ==> run[i] != Create(false)
    ensures var s := Final(START, run);
            id < |s.fds| == |s.closes| && s.fds[id] >= 0 ==>
              s.closes[id] == if HeldByLoop(s, id) || (id in s.threads && s.threads[id].Serving?) then 0 else 1
  {
    RunKeeps(START, run);
    NoneLost(START, run);
  }

  lemma {:induction false} NoneLost(s: State, run: seq<Event>)
    requires Possible(s, run) && (forall i :: 0 <= i < |run| ==> run[i] != Create(false))
    ensures Final(s, run).lost == s.lost
    decreases |run|
  {
    if run != [] { NoneLost(After(s, run[0]), run[1..]); }
  }

  lemma {:induction false} LostStay(s: State, run: seq<Event>)
    requires Possible(s, run)
    ensures s.lost <= Final(s, run).lost
    decreases |run|
  {
    if run != [] { LostStay(After(s, run[0]), run[1..]); }
  }

  /** A failed creation occupies a slot for good: after sixteen of them every later connection is
      turned away and no thread is ever started again. */
  lemma {:induction false} LostSlotsNeverReturn(s: State, run: seq<Event>)
    requires Good(s) && |s.lost| == 16 && Possible(s, run)
    ensures var s' := Final(s, run);
            s'.counter == 16 && s'.threads == map[] && !s'.loop.Counted? && !s'.loop.Admitted?
  {
    RunKeeps(s, run);
    LostStay(s, run);
    var s' := Final(s, run);
    SubsetSize(s.lost, s'.lost);
  }

  /** The first n connections, and no others, were accepted and lost; their descriptors are open. */
  predicate AllLost(s: State, n: nat) {
    && s.loop.AtSelect? && |s.lost| == n == |s.fds| == |s.closes|
    && forall id :: 0 <= id < n ==> id in s.lost && s.fds[id] == 3 + id && s.closes[id] == 0
  }

  /** When every connection so far is lost, there is no thread, and the counter counts them. */
  lemma {:induction false} Threadless(s: State, n: nat)
    requires Good(s) && AllLost(s, n)
    ensures s.counter == n
  {
    assert forall id: nat :: id !in s.threads;
    assert s.threads == map[];
  }

  /** A run that begins with one round of the loop. */
  lemma {:induction false} Round(s: State, fd: int, ok: bool, rest: seq<Event>)
    requires Enabled(s, Accept(fd)) && |s.fds| == |s.closes| && s.counter < MAX_CONNECTIONS
    requires Possible(AfterRound(s, fd, ok), rest)
    ensures var run := [Accept(fd), ReadCount, Increment, Create(ok)] + rest;
            Possible(s, run) && Final(s, run) == Final(AfterRound(s, fd, ok), rest)
  {
    var s1 := After(s, Accept(fd));
    var s2 := After(s1, ReadCount);
    var s3 := After(s2, Increment);
    var r3 := [Create(ok)] + rest;
    var r2 := [Increment] + r3;
    var r1 := [ReadCount] + r2;
    var run := [Accept(fd)] + r1;
    assert r3[1..] == rest && r2[1..] == r3 && r1[1..] == r2 && run[1..] == r1;
    assert Possible(s3, r3) && Final(s3, r3) == Final(AfterRound(s, fd, ok), rest);
    assert Possible(s2, r2) && Final(s2, r2) == Final(s3, r3);
    assert Possible(s1, r1) && Final(s1, r1) == Final(s2, r2);
    assert run == [Accept(fd), ReadCount, Increment, Create(ok)] + rest;
  }

  function AfterRound(s: State, fd: int, ok: bool): State
    requires Enabled(s, Accept(fd)) && |s.fds| == |s.closes| && s.counter < MAX_CONNECTIONS
  {
    After(After(After(After(s, Accept(fd)), ReadCount), Increment), Create(ok))
  }

  lemma {:induction false} RoundKeeps(s: State, fd: int, ok: bool)
    requires Good(s) && Enabled(s, Accept(fd)) && |s.fds| == |s.closes| && s.counter < MAX_CONNECTIONS
    ensures Good(AfterRound(s, fd, ok))
  {
    hide Good;
    StepKeeps(s, Accept(fd));
    var s1 := After(s, Accept(fd));
    StepKeeps(s1, ReadCount);
    var s2 := After(s1, ReadCount);
    StepKeeps(s2, Increment);
    StepKeeps(After(s2, Increment), Create(ok));
  }

  /** A connection is accepted and counted, and its thread cannot be created. */
  lemma {:induction false} LoseOne(s: State, n: nat)
    requires Good(s) && AllLost(s, n) && n < MAX_CONNECTIONS
    ensures Enabled(s, Accept(3 + n)) && s.counter < MAX_CONNECTIONS && |s.fds| == |s.closes|
    ensures AllLost(AfterRound(s, 3 + n, false), n + 1)
  {
    hide CounterOk, ClosesOk, FdsOk;
    Threadless(s, n);
    assert n !in s.lost;
  }

  lemma {:induction false} LostAlready(s: State, n: nat)
    requires AllLost(s, n)
    ensures Possible(s, []) && AllLost(Final(s, []), n)
  {
  }

  /** From a state in which k slots are lost, n can be. */
  lemma {:induction false} MoreCanBeLost(s: State, k: nat, n: nat) returns (run: seq<Event>)
    requires Good(s) && AllLost(s, k) && k <= n <= MAX_CONNECTIONS
    ensures Possible(s, run) && AllLost(Final(s, run), n)
    decreases n - k
  {
    hide Good, AllLost, Possible, Final, AfterRound, Enabled, After;
    if k < n {
      LoseOne(s, k);
      RoundKeeps(s, 3 + k, false);
      var rest := MoreCanBeLost(AfterRound(s, 3 + k, false), k + 1, n);
      Round(s, 3 + k, false, rest);
      run := [Accept(3 + k), ReadCount, Increment, Create(false)] + rest;
    } else {
      LostAlready(s, n);
      run := [];
    }
  }

  /** Any number of slots up to all sixteen can be lost: a run of the loop that does it, and leaves as many
      different descriptors open that nobody will close. */
  lemma {:induction false} SlotsCanBeLost(n: nat) returns (run: seq<Event>)
    requires n <= 16
    ensures Possible(START, run) && AllLost(Final(START, run), n)
  {
    run := MoreCanBeLost(START, 0, n);
  }

  // ---- Slots come back ----

  /** An event of a thread that finishes. */
  predicate Finishing(e: Event) { e.CloseFd? || e.Decrement? }

  /** The run leads from s to s', whatever comes then. */
  ghost predicate Leads(s: State, run: seq<Event>, s': State) {
    forall rest :: Possible(s', rest) ==> Possible(s, run + rest) && Final(s, run + rest) == Final(s', rest)
  }

  lemma {:induction false} LeadsThere(s: State, run: seq<Event>, s': State)
    requires Leads(s, run, s')
    ensures Possible(s, run) && Final(s, run) == s'
  {
    assert Possible(s', []) && Final(s', []) == s';
    assert run + [] == run;
  }

  lemma {:induction false} LeadsOn(s: State, run: seq<Event>, s1: State, more: seq<Event>, s2: State)
    requires Leads(s, run, s1) && Leads(s1, more, s2)
    ensures Leads(s, run + more, s2)
  {
    hide Possible, Final;
    forall rest | Possible(s2, rest)
      ensures Possible(s, (run + more) + rest) && Final(s, (run + more) + rest) == Final(s2, rest)
    {
      assert (run + more) + rest == run + (more + rest);
    }
  }

  lemma {:induction false} LeadsByOne(s: State, e: Event)
    requires Enabled(s, e)
    ensures Leads(s, [e], After(s, e))
  {
    forall rest | Possible(After(s, e), rest)
      ensures Possible(s, [e] + rest) && Final(s, [e] + rest) == Final(After(s, e), rest)
    {
      assert ([e] + rest)[1..] == rest;
    }
  }

  lemma {:induction false} LeadsByRound(s: State, fd: int, ok: bool)
    requires Enabled(s, Accept(fd)) && |s.fds| == |s.closes| && s.counter < MAX_CONNECTIONS
    ensures Leads(s, [Accept(fd), ReadCount, Increment, Create(ok)], AfterRound(s, fd, ok))
  {
    hide Possible, Final, AfterRound;
    forall rest | Possible(AfterRound(s, fd, ok), rest)
      ensures var run := [Accept(fd), ReadCount, Increment, Create(ok)] + rest;
              Possible(s, run) && Final(s, run) == Final(AfterRound(s, fd, ok), rest)
    {
      Round(s, fd, ok, rest);
    }
  }

  /** What a finished thread leaves as it was, and that nothing is opened. */
  ghost predicate Finished(s: State, s': State) {
    && Good(s') && s'.loop == s.loop && s'.lost == s.lost && s'.fds == s.fds
    && forall id: nat :: Open(s', id) ==> Open(s, id)
  }

  /** A thread's descriptor is closed. */
  lemma {:induction false} CloseOne(s: State, id: nat)
    requires Good(s) && id in s.threads && s.threads[id].Serving?
    ensures Enabled(s, CloseFd(id))
    ensures var s' := After(s, CloseFd(id));
            Finished(s, s') && |s'.threads| == |s.threads| && id in s'.threads && s'.threads[id].Closing?
  {
    StepKeeps(s, CloseFd(id));
    var s' := After(s, CloseFd(id));
    assert s'.threads.Keys == s.threads.Keys;
    assert |s'.threads| == |s'.threads.Keys| && |s.threads| == |s.threads.Keys|;
  }

  /** A thread gives its slot back. */
  lemma {:induction false} ReturnOne(s: State, id: nat)
    requires Good(s) && id in s.threads && s.threads[id].Closing?
    ensures Enabled(s, Decrement(id))
    ensures var s' := After(s, Decrement(id));
            Finished(s, s') && |s'.threads| == |s.threads| - 1 && s'.counter == s.counter - 1
  {
    StepKeeps(s, Decrement(id));
    var s' := After(s, Decrement(id));
    assert s'.threads.Keys == s.threads.Keys - {id};
    assert |s'.threads| == |s'.threads.Keys| && |s.threads| == |s.threads.Keys|;
  }

  /** One thread finishes, with one event or two. */
  lemma {:induction false} FinishOne(s: State) returns (run: seq<Event>, s': State)
    requires Good(s) && s.threads != map[]
    ensures Leads(s, run, s') && (forall e :: e in run ==> Finishing(e))
    ensures Finished(s, s') && |s'.threads| == |s.threads| - 1
  {
    hide Leads, Good, Open, After, Enabled, Possible, Final;
    var id: nat :| id in s.threads;
    if s.threads[id].Serving? {
      CloseOne(s, id);
      var s1 := After(s, CloseFd(id));
      ReturnOne(s1, id);
      s' := After(s1, Decrement(id));
      LeadsByOne(s, CloseFd(id));
      LeadsByOne(s1, Decrement(id));
      run := [CloseFd(id)] + [Decrement(id)];
      LeadsOn(s, [CloseFd(id)], s1, [Decrement(id)], s');
    } else {
      ReturnOne(s, id);
      s' := After(s, Decrement(id));
      LeadsByOne(s, Decrement(id));
      run := [Decrement(id)];
    }
  }

  /** From every state all threads can finish, and with them their slots are free again: what is left on the
      counter is the connection about to be started and the lost ones. */
  lemma {:induction false} SlotsComeBack(s: State) returns (run: seq<Event>, s': State)
    requires Good(s)
    ensures Leads(s, run, s') && Possible(s, run) && Final(s, run) == s' && forall e :: e in run ==> Finishing(e)
    ensures Finished(s, s') && s'.threads == map[]
    ensures s'.counter == |s.lost| + (if s.loop.Counted? then 1 else 0)
    decreases |s.threads|
  {
    if s.threads != map[] {
      hide Good, Leads, Open;
      var first, s1 := FinishOne(s);
      var rest, s2 := SlotsComeBack(s1);
      LeadsOn(s, first, s1, rest, s2);
      run, s' := first + rest, s2;
      LeadsThere(s, run, s');
    } else {
      run, s' := [], s;
      StaysThere(s);
    }
  }

  lemma {:induction false} StaysThere(s: State)
    ensures Leads(s, [], s) && Possible(s, []) && Final(s, []) == s
  {
    forall rest | Possible(s, rest) ensures Possible(s, [] + rest) && Final(s, [] + rest) == Final(s, rest) {
      assert [] + rest == rest;
    }
  }

  /** So at select(), as long as fewer than sixteen slots are lost, the threads there are can finish, and any
      connection that comes then is given a thread. */
  lemma {:induction false} NextIsServed(s: State, fd: int) returns (run: seq<Event>)
    requires Good(s) && s.loop.AtSelect? && |s.lost| < 16 && Free(s, fd)
    ensures Possible(s, run)
    ensures var s' := Final(s, run); var id := |s.fds|;
            && s'.fds == s.fds + [fd] && s'.threads == map[id := Serving] && s'.counter == |s.lost| + 1
  {
    hide Leads, Possible, Final;
    var first, s1 := SlotsComeBack(s);
    LeadsByRound(s1, fd, true);
    var round := [Accept(fd), ReadCount, Increment, Create(true)];
    LeadsOn(s, first, s1, round, AfterRound(s1, fd, true));
    run := first + round;
    LeadsThere(s, run, AfterRound(s1, fd, true));
  }

  /** An accepted connection is turned away exactly when sixteen slots are taken, by threads or lost. */
  lemma {:induction false} TurnedAwayExactly(s: State)
    requires Good(s) && s.loop.Accepted?
    ensures Enabled(s, ReadCount)
    ensures var s' := After(s, ReadCount); var id := s.loop.id;
            if |s.threads| + |s.lost| == 16
            then s'.loop == AtSelect && !Open(s', id) && (s.fds[id] >= 0 ==> s'.closes[id] == 1)
            else s'.loop == Admitted(id) && |s.threads| + |s.lost| < 16 && Open(s', id)
  {
    StepHolder(s);
    StepKeeps(s, ReadCount);
  }

  lemma {:induction false} StepHolder(s: State)
    requires Good(s) && s.loop.Accepted?
    ensures s.loop.id < |s.fds| == |s.closes| && s.loop.id !in s.threads && s.loop.id !in s.lost
  {
    assert HeldByLoop(s, s.loop.id);
  }

  // ---- The end of the program ----

  /** A thread that may still go on to the cache of URLs and the list of mirrors. */
  predicate Busy(s: State) {
    exists id :: id in s.threads && s.threads[id].Serving?
  }

  /** The loop can be left while a thread is busy. */
  lemma ExitWhileBusy() returns (run: seq<Event>)
    ensures Possible(START, run) && Final(START, run).loop.Exited? && Busy(Final(START, run))
  {
    var s := AfterRound(START, 3, true);
    var last := [SelectTimeout];
    assert last[1..] == [];
    assert Possible(s, last) && Final(s, last) == After(s, SelectTimeout);
    assert 0 in s.threads && s.threads[0].Serving?;
    Round(START, 3, true, last);
    run := [Accept(3), ReadCount, Increment, Create(true)] + last;
  }

  predicate IdleAfter(s: State, run: seq<Event>) {
    Possible(s, run) ==> !Busy(Final(s, run))
  }

  /** What the end of the program frees stays unused, whatever happens then, exactly when no thread is busy as
      the loop is left. */
  lemma {:induction false} ExitSafeExactly(s: State)
    requires s.loop.Exited?
    ensures (forall run :: IdleAfter(s, run)) <==> !Busy(s)
  {
    assert IdleAfter(s, []) <==> !Busy(s);
    if !Busy(s) {
      forall run ensures IdleAfter(s, run) {
        if Possible(s, run) { StaysIdle(s, run); }
      }
    }
  }

  lemma {:induction false} StaysIdle(s: State, run: seq<Event>)
    requires s.loop.Exited? && !Busy(s) && Possible(s, run)
    ensures !Busy(Final(s, run))
    decreases |run|
  {
    if run != [] {
      var s' := After(s, run[0]);
      assert forall id :: id in s'.threads ==> id in s.threads && (s'.threads[id].Serving? ==> s.threads[id].Serving?);
      StaysIdle(s', run[1..]);
    }
  }

  lemma {:induction false} SubsetSize<T>(a: set<T>, b: set<T>)
    requires a <= b
    ensures |a| <= |b|
  {
    assert b == a + (b - a);
  }
}
