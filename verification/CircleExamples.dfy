/** Reachable tables with a circle at the load limit: a put that is refused, and one that never ends. */
module CircleExamples {
  import opened Keys
  import opened Chains
  import opened Tables
  import opened Refinement
  import opened Histories
  import opened Circles

  /** A first bucket, and one entry each in the n buckets behind it. */
  function Filled(first: Bucket, n: nat): (r: seq<Bucket>)
    ensures |r| == INITIAL_SIZE
  {
    seq(INITIAL_SIZE, i requires 0 <= i < INITIAL_SIZE =>
      if i == 0 then first else if i <= n then Bucket([Slot(true, Key(i, ""), 0)], -1) else Bucket([VACANT], -1))
  }

  function Puts(n: nat, m: nat): seq<Op>
    requires n <= m
    decreases m - n
  {
    if n == m then [] else [PutOp(Key(n + 1, ""), 0)] + Puts(n + 1, m)
  }

  /** All texts are empty, so an address has one text. */
  predicate Plain(rows: seq<Bucket>) {
    forall b, i :: 0 <= b < |rows| && 0 <= i < |rows[b].slots| && rows[b].slots[i].key.Key? ==>
      rows[b].slots[i].key.text == ""
  }

  lemma {:induction false} PlainCoherent(t: Table, k: Key)
    requires Plain(t.rows) && k.Key? && k.text == ""
    ensures Coherent(t, k)
  {
    forall x | x in Bag(t) && x.key.Key? && x.key.addr == k.addr ensures x.key == k {
      var b := EntriesMember(t.rows, x);
      var i :| 0 <= i < |t.rows[b].slots| && t.rows[b].slots[i] == x;
    }
  }

  lemma {:induction false} PlainPut(t: Table, k: Key, v: Value)
    requires Inv(AddressOps(), t) && Plain(t.rows) && k.Key? && k.text == "" && PutEnds(AddressOps(), t, k)
    ensures Inv(AddressOps(), Put(AddressOps(), t, k, v).0)
  {
    LibraryOpsAreLawful();
    PlainCoherent(t, k);
    PutKeeps(AddressOps(), t, k, v);
  }

  lemma {:induction false} FilledPlain(first: Bucket, n: nat)
    requires forall i :: 0 <= i < |first.slots| && first.slots[i].key.Key? ==> first.slots[i].key.text == ""
    ensures Plain(Filled(first, n))
  {
  }

  /** One more bucket filled. */
  lemma {:induction false} FillOne(first: Bucket, n: nat, size: nat, released: seq<Slot>)
    requires n < INITIAL_SIZE - 1 && size < 42
    ensures var t := Table(Filled(first, n), size, released);
            && Put(AddressOps(), t, Key(n + 1, ""), 0) == (Table(Filled(first, n + 1), size + 1, released), true)
            && PutEnds(AddressOps(), t, Key(n + 1, ""))
  {
    var o, k := AddressOps(), Key(n + 1, "");
    var t := Table(Filled(first, n), size, released);
    assert NextSize(INITIAL_SIZE) == 42;
    assert Home(o, INITIAL_SIZE, k) == n + 1;
    assert t.rows[n + 1] == Bucket([VACANT], -1);
    FillBucket(k);
    assert t.rows[n + 1 := Bucket([Slot(true, k, 0)], -1)] == Filled(first, n + 1);
    assert released + [] == released;
  }

  lemma {:induction false} FillBucket(k: Key)
    ensures InsertInto(AddressOps(), Bucket([VACANT], -1), k, 0) == (Bucket([Slot(true, k, 0)], -1), 1)
    ensures FindOwn(AddressOps(), [VACANT], k) == 1
  {
    assert [VACANT][0 := Slot(true, k, 0)] == [Slot(true, k, 0)];
  }

  /** The table of a run that fills buckets n + 1 to m. */
  function FilledTable(first: Bucket, n: nat, size: nat, released: seq<Slot>): (t: Table)
    ensures |t.rows| > 0
  {
    Table(Filled(first, n), size, released)
  }

  lemma {:induction false} FillRun(first: Bucket, n: nat, m: nat, size: nat, released: seq<Slot>)
    requires n <= m < INITIAL_SIZE && size + (m - n) <= 42
    ensures Run(AddressOps(), FilledTable(first, n, size, released), Puts(n, m)).0 ==
            FilledTable(first, m, size + (m - n), released)
    decreases m - n
  {
    hide FilledTable, Run;
    if n < m {
      FillStep(first, n, size, released);
      FillRun(first, n + 1, m, size + 1, released);
      RunOne(AddressOps(), FilledTable(first, n, size, released), PutOp(Key(n + 1, ""), 0), Puts(n + 1, m));
    } else {
      RunNone(AddressOps(), FilledTable(first, n, size, released));
    }
  }

  lemma {:induction false} FillStep(first: Bucket, n: nat, size: nat, released: seq<Slot>)
    requires n < INITIAL_SIZE - 1 && size < 42
    ensures Step(AddressOps(), FilledTable(first, n, size, released), PutOp(Key(n + 1, ""), 0)).0 ==
            FilledTable(first, n + 1, size + 1, released)
  {
    hide Put, Filled;
    FillOne(first, n, size, released);
  }

  lemma {:induction false} FillInv(first: Bucket, n: nat, m: nat, size: nat, released: seq<Slot>)
    requires n <= m < INITIAL_SIZE && size + (m - n) <= 42
    requires forall i :: 0 <= i < |first.slots| && first.slots[i].key.Key? ==> first.slots[i].key.text == ""
    requires Inv(AddressOps(), FilledTable(first, n, size, released))
    ensures Inv(AddressOps(), FilledTable(first, m, size + (m - n), released))
    decreases m - n
  {
    hide FilledTable, Inv;
    if n < m {
      FillInvStep(first, n, size, released);
      FillInv(first, n + 1, m, size + 1, released);
    }
  }

  lemma {:induction false} FillInvStep(first: Bucket, n: nat, size: nat, released: seq<Slot>)
    requires n < INITIAL_SIZE - 1 && size < 42
    requires forall i :: 0 <= i < |first.slots| && first.slots[i].key.Key? ==> first.slots[i].key.text == ""
    requires Inv(AddressOps(), FilledTable(first, n, size, released))
    ensures Inv(AddressOps(), FilledTable(first, n + 1, size + 1, released))
  {
    hide Put, PutEnds, Filled, Inv, Plain;
    FillOne(first, n, size, released);
    FilledPlain(first, n);
    PlainPut(FilledTable(first, n, size, released), Key(n + 1, ""), 0);
  }

  lemma {:induction false} RunNone(o: KeyOps, t: Table)
    requires |t.rows| > 0
    ensures Run(o, t, []).0 == t
  {
  }

  lemma {:induction false} RunAppend(o: KeyOps, t: Table, ops: seq<Op>, more: seq<Op>)
    requires |t.rows| > 0
    ensures Run(o, t, ops + more).0 == Run(o, Run(o, t, ops).0, more).0
    decreases |ops|
  {
    hide Run, Step;
    if ops == [] {
      RunNone(o, t);
      assert ops + more == more;
    } else {
      var op, rest := ops[0], ops[1..];
      RunAppend(o, Step(o, t, op).0, rest, more);
      RunOne(o, t, op, rest);
      RunOne(o, t, op, rest + more);
      assert ops == [op] + rest && ops + more == [op] + (rest + more);
    }
  }

  const A: Key := Key(61, "")
  const B: Key := Key(122, "")
  const C: Key := Key(183, "")

  /** The history that closes the chain of bucket 0. */
  const CLOSING: seq<Op> := [PutOp(A, 1), PutOp(B, 2), RemoveOp(A, true), PutOp(C, 3)]

  const RING: Bucket := Bucket([Slot(true, C, 3), Slot(true, B, 2)], 0)

  lemma Closed()
    ensures Run(AddressOps(), NewTable(), CLOSING).0 == Table(Filled(RING, 0), 2, [Slot(true, A, 1)])
  {
    var o, x, y := AddressOps(), Slot(true, A, 1), Slot(true, B, 2);
    var t3 := Table(Only([VACANT, y]), 1, [x]);
    var first, c := [PutOp(A, 1), PutOp(B, 2), RemoveOp(A, true)], PutOp(C, 3);
    CyclePrelude();
    LastPut();
    hide Put, Remove, Only, Filled, Run;
    RunAppend(o, NewTable(), first, [c]);
    RunOne(o, t3, c, []);
    RunNone(o, Put(o, t3, C, 3).0);
    assert first + [c] == CLOSING && [c] + [] == [c];
  }

  lemma ClosedInv()
    ensures Inv(AddressOps(), Table(Filled(RING, 0), 2, [Slot(true, A, 1)]))
  {
    var o, x, y := AddressOps(), Slot(true, A, 1), Slot(true, B, 2);
    var t1, t2, t3 := Table(Only([x]), 1, []), Table(Only([x, y]), 2, []), Table(Only([VACANT, y]), 1, [x]);
    CyclePuts();
    RemoveFirst(A, x, y);
    LastPut();
    LibraryOpsAreLawful();
    NewTableInv(o);
    OnlyPlain();
    SmallPutsEnd();
    hide Put, Remove, Only, Filled, PutEnds, Inv, Plain, Lawful;
    PlainPut(NewTable(), A, 1);
    PlainPut(t1, B, 2);
    RemoveKeeps(o, t2, A, true);
    PlainPut(t3, C, 3);
  }

  lemma LastPut()
    ensures Put(AddressOps(), Table(Only([VACANT, Slot(true, B, 2)]), 1, [Slot(true, A, 1)]), C, 3)
            == (Table(Filled(RING, 0), 2, [Slot(true, A, 1)]), true)
  {
    var t := Table(Only([VACANT, Slot(true, B, 2)]), 1, [Slot(true, A, 1)]);
    CycleInsert();
    hide Insert, FindOwn, InsertInto;
    assert t.rows[0] == Bucket([VACANT, Slot(true, B, 2)], -1) && NextSize(INITIAL_SIZE) == 42;
    IntoStraight(AddressOps(), t.rows[0], C, 3);
    assert t.rows[0 := RING] == Filled(RING, 0);
    assert t.released + [] == t.released;
  }

  lemma {:induction false} IntoStraight(o: KeyOps, b: Bucket, k: Key, v: Value)
    requires b.back == -1
    ensures InsertInto(o, b, k, v) == Insert(o, b.slots, k, v)
  {
  }

  lemma OnlyPlain()
    ensures Plain(NewTable().rows) && Plain(Only([Slot(true, A, 1)])) && Plain(Only([VACANT, Slot(true, B, 2)]))
  {
  }

  lemma SmallPutsEnd()
    ensures PutEnds(AddressOps(), NewTable(), A)
    ensures PutEnds(AddressOps(), Table(Only([Slot(true, A, 1)]), 1, []), B)
    ensures PutEnds(AddressOps(), Table(Only([VACANT, Slot(true, B, 2)]), 1, [Slot(true, A, 1)]), C)
  {
  }

  /** The circle of `CycleExample`, then forty puts into other buckets: the table is full, and the next put of a
      new address answers false without storing it. No allocation has failed. The entry of key C and that of
      key B are destroyed and stay in the table, the former is destroyed twice. */
  lemma RefusedExample()
    ensures var o, k := AddressOps(), Key(41, ""); var t := Run(o, NewTable(), CLOSING + Puts(0, 40)).0;
            && Inv(o, t) && t.size == 42 && PutRefused(t) && PutEnds(o, t, k) && Lookup(o, t, k) == None
            && var (t', added) := Put(o, t, k, 9);
               && !added && t'.rows == t.rows && Lookup(o, t', k) == None
               && multiset(t'.released) == multiset(t.released) + multiset{Slot(true, C, 3), Slot(true, B, 2)}
                                           + multiset{Slot(true, C, 3)}
  {
    hide Put, Run, Filled, Inv, Entries, Lookup, PutEnds, Puts, Lawful;
    var o, k := AddressOps(), Key(41, "");
    var t := Table(Filled(RING, 40), 42, [Slot(true, A, 1)]);
    Closed();
    FillRun(RING, 0, 40, 2, [Slot(true, A, 1)]);
    RunAppend(o, NewTable(), CLOSING, Puts(0, 40));
    ClosedInv();
    FillInv(RING, 0, 40, 2, [Slot(true, A, 1)]);
    FullRing(k);
    LibraryOpsAreLawful();
    RefusedReleases(o, t, k, 9);
    PlainCoherent(t, k) by { FilledPlain(RING, 40); }
    PutFound(o, t, k, 9, k);
  }

  lemma {:induction false} FullRing(k: Key)
    requires k == Key(41, "")
    ensures var t := Table(Filled(RING, 40), 42, [Slot(true, A, 1)]);
            && |t.rows| > 0 && PutRefused(t) && ResizeEnds(t.rows) && PutEnds(AddressOps(), t, k)
            && Lookup(AddressOps(), t, k) == None
            && FirstCircle(t.rows) == 0 && Twice(t.rows) == Slot(true, C, 3)
            && multiset(MovedFirst(t.rows)) == multiset{Slot(true, C, 3), Slot(true, B, 2)}
  {
    hide Occupied, Entries;
    var t := Table(Filled(RING, 40), 42, [Slot(true, A, 1)]);
    assert NextSize(INITIAL_SIZE) == 42;
    assert t.rows[0] == RING && t.rows[41] == Bucket([VACANT], -1);
    assert FirstMatch(AddressOps(), [VACANT], k) == 1;
    assert t.rows[..1] == [RING];
    RingEntries();
  }

  lemma RingEntries()
    ensures Entries([RING]) == [Slot(true, C, 3), Slot(true, B, 2)]
  {
    var s := RING.slots;
    assert [RING][..0] == [];
    OccupiedAll(s);
  }

  /** The same with the circle emptied again: the put that finds the table full never ends. */
  lemma EndlessExample()
    ensures var o, k := AddressOps(), Key(43, "");
            var t := Run(o, NewTable(), CLOSING + [RemoveOp(C, true), RemoveOp(B, true)] + Puts(0, 42)).0;
            Inv(o, t) && t.size == 42 && PutRefused(t) && !PutEnds(o, t, k)
  {
    hide Put, Remove, Run, Filled, Inv, Puts, Lawful;
    var o := AddressOps();
    var gone := [RemoveOp(C, true), RemoveOp(B, true)];
    Closed();
    Emptied();
    RunAppend(o, NewTable(), CLOSING, gone);
    FillRun(EMPTY, 0, 42, 0, DONE);
    RunAppend(o, NewTable(), CLOSING + gone, Puts(0, 42));
    EmptiedInv();
    FillInv(EMPTY, 0, 42, 0, DONE);
    FullEmpty(Key(43, ""));
  }

  const EMPTY: Bucket := Bucket([VACANT, VACANT], 0)

  const DONE: seq<Slot> := [Slot(true, A, 1), Slot(true, C, 3), Slot(true, B, 2)]

  lemma {:induction false} FullEmpty(k: Key)
    ensures var t := Table(Filled(EMPTY, 42), 42, DONE);
            |t.rows| > 0 && PutRefused(t) && !PutEnds(AddressOps(), t, k)
  {
    var t := Table(Filled(EMPTY, 42), 42, DONE);
    assert NextSize(INITIAL_SIZE) == 42 && t.rows[0] == EMPTY;
  }

  lemma Emptied()
    ensures Run(AddressOps(), Table(Filled(RING, 0), 2, [Slot(true, A, 1)]),
                [RemoveOp(C, true), RemoveOp(B, true)]).0 == Table(Filled(EMPTY, 0), 0, DONE)
  {
    var o := AddressOps();
    var t0, t1 := Table(Filled(RING, 0), 2, [Slot(true, A, 1)]), Halved();
    EmptiedSteps();
    hide Remove, Filled, Run;
    RunOne(o, t0, RemoveOp(C, true), [RemoveOp(B, true)]);
    RunOne(o, t1, RemoveOp(B, true), []);
    RunNone(o, Remove(o, t1, B, true).0);
    assert [RemoveOp(C, true)] + [RemoveOp(B, true)] == [RemoveOp(C, true), RemoveOp(B, true)];
    assert [RemoveOp(B, true)] + [] == [RemoveOp(B, true)];
  }

  function Halved(): (t: Table)
    ensures |t.rows| > 0
  {
    Table(Filled(Bucket([VACANT, Slot(true, B, 2)], 0), 0), 1, [Slot(true, A, 1), Slot(true, C, 3)])
  }

  lemma EmptiedSteps()
    ensures var t := Table(Filled(RING, 0), 2, [Slot(true, A, 1)]);
            && |t.rows| > 0 && |Filled(EMPTY, 0)| > 0
            && Remove(AddressOps(), t, C, true) == (Halved(), true)
            && Remove(AddressOps(), Halved(), B, true) == (Table(Filled(EMPTY, 0), 0, DONE), true)
  {
    var x, y, z := Slot(true, A, 1), Slot(true, B, 2), Slot(true, C, 3);
    hide Remove, Filled;
    RemoveOne(RING, C, 0, 2, [x]);
    assert [z, y][0 := VACANT] == [VACANT, y] && [x] + [z] == [x, z];
    RemoveOne(Bucket([VACANT, y], 0), B, 1, 1, [x, z]);
    assert [VACANT, y][1 := VACANT] == [VACANT, VACANT] && [x, z] + [y] == DONE;
  }

  lemma EmptiedInv()
    ensures Inv(AddressOps(), Table(Filled(EMPTY, 0), 0, DONE))
  {
    LibraryOpsAreLawful();
    ClosedInv();
    EmptiedSteps();
    hide Remove, Filled, Inv, Lawful;
    RemoveKeeps(AddressOps(), Table(Filled(RING, 0), 2, [Slot(true, A, 1)]), C, true);
    RemoveKeeps(AddressOps(), Halved(), B, true);
  }

  lemma {:induction false} RemoveOne(first: Bucket, k: Key, i: nat, size: nat, released: seq<Slot>)
    requires k.Key? && k.addr % WORD % INITIAL_SIZE == 0
    requires FirstMatch(AddressOps(), first.slots, k) == i < |first.slots|
    ensures |Filled(first, 0)| > 0
    ensures Remove(AddressOps(), Table(Filled(first, 0), size, released), k, true) ==
            (Table(Filled(Bucket(first.slots[i := VACANT], first.back), 0), size - 1, released + [first.slots[i]]),
             true)
  {
    var t := Table(Filled(first, 0), size, released);
    assert t.rows[0] == first;
    assert t.rows[0 := Bucket(first.slots[i := VACANT], first.back)]
        == Filled(Bucket(first.slots[i := VACANT], first.back), 0);
  }
}
