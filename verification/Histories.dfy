/** Whole runs of the map: refinement of an abstract map, conservation of entries, load and cost. */
module Histories {
  import opened Keys
  import opened Chains
  import opened Tables
  import opened Refinement

  datatype Op = PutOp(k: Key, v: Value) | GetOp(k: Key) | RemoveOp(k: Key, nuke: bool)
  datatype Answer = Flag(b: bool) | Looked(found: Option<Value>)

  function Step(o: KeyOps, t: Table, op: Op): (r: (Table, Answer))
    requires |t.rows| > 0
    ensures |r.0.rows| > 0
  {
    match op
    case PutOp(k, v) => var (t', b) := Put(o, t, k, v); (t', Flag(b))
    case GetOp(k) => (t, Looked(Get(o, t, k)))
    case RemoveOp(k, nuke) => var (t', b) := Remove(o, t, k, nuke); (t', Flag(b))
  }

  function Run(o: KeyOps, t: Table, ops: seq<Op>): (r: (Table, seq<Answer>))
    requires |t.rows| > 0
    ensures |r.0.rows| > 0
    decreases |ops|
  {
    if ops == [] then (t, [])
    else
      var (t1, a) := Step(o, t, ops[0]);
      var (t2, as') := Run(o, t1, ops[1..]);
      (t2, [a] + as')
  }

  // ---- What a caller must respect ----

  /** The bucket `put` inserts into, after any resize, meets the acyclicity condition of
      `InsertFiniteExactly` (or already holds the key's own address). */
  predicate KeepsFinite(o: KeyOps, t: Table, k: Key)
    requires |t.rows| > 0
  {
    var r := Roomy(o, t);
    var s := r.rows[Home(o, |r.rows|, k)].slots;
    FindOwn(o, s, k) < |s| || (forall i :: 0 <= i < |s| ==> s[i].occ) || (|s| > 0 && !s[|s| - 1].occ)
  }

  ghost predicate Sane(o: KeyOps, t: Table, op: Op)
    requires |t.rows| > 0
  {
    op.k.Key? && (op.PutOp? ==> Coherent(t, op.k) && KeepsFinite(o, t, op.k))
  }

  /** In addition, a put does not bring a second address for a stored content. */
  ghost predicate Admissible(o: KeyOps, t: Table, op: Op)
    requires |t.rows| > 0
  {
    Sane(o, t, op) && (op.PutOp? ==> forall y :: y in Bag(t) && o.compare(y.key, op.k) ==> y.key == op.k)
  }

  ghost predicate SaneRun(o: KeyOps, t: Table, ops: seq<Op>)
    requires |t.rows| > 0
    decreases |ops|
  {
    ops != [] ==> Sane(o, t, ops[0]) && SaneRun(o, Step(o, t, ops[0]).0, ops[1..])
  }

  ghost predicate AdmissibleRun(o: KeyOps, t: Table, ops: seq<Op>)
    requires |t.rows| > 0
    decreases |ops|
  {
    ops != [] ==> Admissible(o, t, ops[0]) && AdmissibleRun(o, Step(o, t, ops[0]).0, ops[1..])
  }

  // ---- Invariants of a run ----

  /** A put that comes to an end leaves every chain finite exactly when every chain was, and its bucket met
      the condition. */
  lemma {:induction false} PutFiniteExactly(o: KeyOps, t: Table, k: Key, v: Value)
    requires Lawful(o) && Inv(o, t) && PutEnds(o, t, k)
    ensures Straight(Put(o, t, k, v).0) <==> Straight(t) && KeepsFinite(o, t, k)
  {
    if Straight(t) {
      RoomyKeeps(o, t);
      var r := Roomy(o, t);
      HomeShaped(o, r, k);
      InsertFinite(o, r, k, v);
    } else {
      CircleStays(o, t, k, v);
    }
  }

  lemma {:induction false} CircleStays(o: KeyOps, t: Table, k: Key, v: Value)
    requires Inv(o, t) && PutEnds(o, t, k) && !Straight(t)
    ensures !Straight(Put(o, t, k, v).0)
  {
    var c :| 0 <= c < |t.rows| && t.rows[c].back != -1;
    assert Put(o, t, k, v).0.rows[c].back != -1;
  }

  lemma {:induction false} HomeShaped(o: KeyOps, t: Table, k: Key)
    requires Inv(o, t)
    ensures var r := t.rows[Home(o, |t.rows|, k)];
            Shaped(r) && (!r.slots[|r.slots| - 1].occ ==> r.slots[|r.slots| - 1] == VACANT)
  {
    var h := Home(o, |t.rows|, k);
    var r := t.rows[h];
    assert RowOk(o, |t.rows|, h, r) && SlotOk(o, |t.rows|, h, r.slots[|r.slots| - 1]);
  }

  lemma {:induction false} InsertFinite(o: KeyOps, t: Table, k: Key, v: Value)
    requires |t.rows| > 0 && Straight(t) && Shaped(t.rows[Home(o, |t.rows|, k)])
    ensures var s := t.rows[Home(o, |t.rows|, k)].slots;
            Straight(InsertAt(o, t, k, v).0) <==>
            FindOwn(o, s, k) < |s| || (forall i :: 0 <= i < |s| ==> s[i].occ) || !s[|s| - 1].occ
  {
    var h := Home(o, |t.rows|, k);
    var b := Insert(o, t.rows[h].slots, k, v).0;
    var t' := InsertAt(o, t, k, v).0;
    assert t'.rows[h] == b;
    if b.back == -1 {
      forall c | 0 <= c < |t'.rows| ensures t'.rows[c].back == -1 { assert c != h ==> t'.rows[c] == t.rows[c]; }
    }
  }

  lemma {:induction false} RemoveStraight(o: KeyOps, t: Table, k: Key, nuke: bool)
    requires |t.rows| > 0 && Straight(t)
    ensures Straight(Remove(o, t, k, nuke).0)
  {
  }

  lemma {:induction false} StepKeeps(o: KeyOps, t: Table, op: Op)
    requires Lawful(o) && Inv(o, t) && Straight(t) && Sane(o, t, op)
    ensures Inv(o, Step(o, t, op).0) && Straight(Step(o, t, op).0)
  {
    match op
    case PutOp(k, v) => StraightPutEnds(o, t, k); PutKeeps(o, t, k, v); PutFiniteExactly(o, t, k, v);
    case GetOp(k) =>
    case RemoveOp(k, nuke) => RemoveKeeps(o, t, k, nuke); RemoveStraight(o, t, k, nuke);
  }

  lemma {:induction false} NewTableInv(o: KeyOps)
    ensures Inv(o, NewTable()) && Straight(NewTable()) && Bag(NewTable()) == multiset{}
  {
    NoEntries(NewTable().rows);
    assert INITIAL_SIZE == INITIAL_SIZE * Pow4(0);
    forall b | 0 <= b < INITIAL_SIZE ensures RowOk(o, INITIAL_SIZE, b, NewTable().rows[b]) {
      assert NewTable().rows[b] == Bucket([VACANT], -1);
    }
  }

  // ---- Refinement of an abstract map ----

  ghost predicate Refines(o: KeyOps, t: Table, m: map<Key, Value>) {
    && Inv(o, t) && Straight(t)
    && Holds(Bag(t), m)
    && t.size == |m|
    && Unambiguous(o, m)
  }

  /** The entries are the pairs of the map. */
  ghost predicate Holds(bag: multiset<Slot>, m: map<Key, Value>) {
    && (forall y :: y in bag ==> y.occ)
    && (forall k, v :: Slot(true, k, v) in bag <==> k in m && m[k] == v)
  }

  /** No two stored keys compare equal. */
  ghost predicate Unambiguous(o: KeyOps, m: map<Key, Value>) {
    forall a, b :: a in m && b in m && o.compare(a, b) ==> a == b
  }

  /** The stored key that compares equal to k. */
  ghost function Matching(o: KeyOps, m: map<Key, Value>, k: Key): (r: Option<Key>)
    ensures r.Some? ==> r.value in m && o.compare(r.value, k)
    ensures r.None? ==> forall a :: a in m ==> !o.compare(a, k)
  {
    if a :| a in m && o.compare(a, k) then Some(a) else None
  }

  ghost function Without(o: KeyOps, m: map<Key, Value>, k: Key): map<Key, Value> {
    var a := Matching(o, m, k);
    if a.Some? then m - {a.value} else m
  }

  ghost function MapStep(o: KeyOps, m: map<Key, Value>, op: Op): (map<Key, Value>, Answer) {
    match op
    case PutOp(k, v) => (m[k := v], Flag(k !in m))
    case GetOp(k) => (m, Looked(match Matching(o, m, k) case Some(a) => Some(m[a]) case None => None))
    case RemoveOp(k, nuke) =>
      (Without(o, m, k), Flag(Matching(o, m, k).Some?))
  }

  ghost function MapRun(o: KeyOps, m: map<Key, Value>, ops: seq<Op>): (map<Key, Value>, seq<Answer>)
    decreases |ops|
  {
    if ops == [] then (m, [])
    else
      var (m1, a) := MapStep(o, m, ops[0]);
      var (m2, as') := MapRun(o, m1, ops[1..]);
      (m2, [a] + as')
  }

  /** A lookup answers the value of a stored entry that compares equal, and fails only if there is none. */
  lemma {:induction false} GetMeaning(o: KeyOps, t: Table, k: Key)
    requires Lawful(o) && Inv(o, t) && k.Key?
    ensures Get(o, t, k).Some? <==> exists y :: y in Bag(t) && o.compare(y.key, k)
    ensures Get(o, t, k).Some? ==>
              exists y :: y in Bag(t) && o.compare(y.key, k) && y.value == Get(o, t, k).value
  {
    RemoveKeeps(o, t, k, false);
  }

  lemma {:induction false} HoldsUpdate(bag: multiset<Slot>, bag': multiset<Slot>, m: map<Key, Value>,
                                          k: Key, v: Value, inc: int)
    requires Holds(bag, m) && Separate(bag) && k.Key?
    requires var x := Slot(true, k, v);
             || (inc == 1 && (forall y :: y in bag ==> y.key != k) && bag' == bag + multiset{x})
             || (inc == 0 && exists y :: y in bag && y.key == k && bag' + multiset{y} == bag + multiset{x})
    ensures Holds(bag', m[k := v]) && |m[k := v]| == |m| + inc && inc == if k in m then 0 else 1
  {
    var x := Slot(true, k, v);
    if inc == 1 {
      forall a | a in m ensures a != k { assert Slot(true, a, m[a]) in bag; }
    } else {
      var y :| y in bag && y.key == k && bag' + multiset{y} == bag + multiset{x};
      assert y == Slot(true, k, y.value);
      BagSwap(bag, bag', x, y);
    }
  }

  lemma {:induction false} BagSwap(m: multiset<Slot>, m': multiset<Slot>, x: Slot, y: Slot)
    requires m' + multiset{y} == m + multiset{x} && y in m && Separate(m)
    ensures forall e :: e in m' <==> e == x || (e in m && e != y)
  {
    forall e ensures e in m' <==> e == x || (e in m && e != y) {
      assert (m' + multiset{y})[e] == (m + multiset{x})[e];
    }
  }

  /** `put` is map update, and answers whether the key was new. */
  lemma {:induction false} PutRefines(o: KeyOps, t: Table, m: map<Key, Value>, k: Key, v: Value)
    requires Lawful(o) && Refines(o, t, m) && Admissible(o, t, PutOp(k, v))
    ensures Refines(o, Put(o, t, k, v).0, m[k := v]) && Put(o, t, k, v).1 == (k !in m)
  {
    var (t', added) := Put(o, t, k, v);
    StraightPutEnds(o, t, k);
    PutKeeps(o, t, k, v);
    PutFiniteExactly(o, t, k, v);
    HoldsUpdate(Bag(t), Bag(t'), m, k, v, if added then 1 else 0) by {
      if !added {
        var r := t.(rows := Roomy(o, t).rows);
        var y :| y in Bag(r) && y.key == k && Replaced(r, t', Slot(true, k, v), y);
      }
    }
    StillUnambiguous(o, Bag(t), m, k, v);
  }

  lemma {:induction false} StillUnambiguous(o: KeyOps, bag: multiset<Slot>, m: map<Key, Value>, k: Key, v: Value)
    requires Lawful(o) && Holds(bag, m) && Unambiguous(o, m)
    requires forall y :: y in bag && o.compare(y.key, k) ==> y.key == k
    ensures Unambiguous(o, m[k := v])
  {
    forall a | a in m && o.compare(a, k) ensures a == k {
      assert Slot(true, a, m[a]) in bag;
    }
  }

  lemma {:induction false} HoldsDelete(bag: multiset<Slot>, m: map<Key, Value>, y: Slot)
    requires Holds(bag, m) && Separate(bag) && y in bag
    ensures y.key in m && Holds(bag - multiset{y}, m - {y.key}) && |m - {y.key}| == |m| - 1
  {
    assert y == Slot(true, y.key, y.value);
    var bag' := bag - multiset{y};
    forall e ensures e in bag' <==> e in bag && e != y {
      assert bag'[e] == if e == y then 0 else bag[e];
    }
    assert (m - {y.key}).Keys == m.Keys - {y.key};
    assert |(m - {y.key}).Keys| == |m.Keys| - 1;
  }

  /** `remove` (nuke) and `steal` are deletion, and answer whether there was something to delete. */
  lemma {:induction false} RemoveRefines(o: KeyOps, t: Table, m: map<Key, Value>, k: Key, nuke: bool)
    requires Lawful(o) && Refines(o, t, m) && k.Key?
    ensures Remove(o, t, k, nuke).1 == Matching(o, m, k).Some?
    ensures Refines(o, Remove(o, t, k, nuke).0, Without(o, m, k))
  {
    var (t', found) := Remove(o, t, k, nuke);
    RemoveKeeps(o, t, k, nuke);
    RemoveStraight(o, t, k, nuke);
    MatchingMeaning(o, Bag(t), m, k);
    if found {
      var y :| y in Bag(t) && Taken(o, t, k, nuke, t', y);
      HoldsDelete(Bag(t), m, y);
    }
  }

  lemma {:induction false} MatchingMeaning(o: KeyOps, bag: multiset<Slot>, m: map<Key, Value>, k: Key)
    requires Lawful(o) && Holds(bag, m) && Unambiguous(o, m)
    ensures Matching(o, m, k).Some? <==> exists y :: y in bag && o.compare(y.key, k)
    ensures forall y :: y in bag && o.compare(y.key, k) ==>
              y.key in m && Matching(o, m, k) == Some(y.key) && y.value == m[y.key]
  {
    var a := Matching(o, m, k);
    if a.Some? { assert Slot(true, a.value, m[a.value]) in bag; }
    forall y | y in bag && o.compare(y.key, k)
      ensures y.key in m && a == Some(y.key) && y.value == m[y.key]
    {
      assert y == Slot(true, y.key, y.value);
    }
  }

  lemma {:induction false} GetRefines(o: KeyOps, t: Table, m: map<Key, Value>, k: Key)
    requires Lawful(o) && Refines(o, t, m) && k.Key?
    ensures Get(o, t, k) == match Matching(o, m, k) case Some(a) => Some(m[a]) case None => None
  {
    GetMeaning(o, t, k);
    MatchingMeaning(o, Bag(t), m, k);
  }

  lemma {:induction false} StepRefines(o: KeyOps, t: Table, m: map<Key, Value>, op: Op)
    requires Lawful(o) && Refines(o, t, m) && Admissible(o, t, op)
    ensures Refines(o, Step(o, t, op).0, MapStep(o, m, op).0) && Step(o, t, op).1 == MapStep(o, m, op).1
  {
    match op
    case PutOp(k, v) => PutRefines(o, t, m, k, v);
    case GetOp(k) => GetRefines(o, t, m, k);
    case RemoveOp(k, nuke) => RemoveRefines(o, t, m, k, nuke);
  }

  /** Every admissible run of puts, lookups, removals and steals, with whatever resizes it causes,
      gives the answers of the abstract map and ends in a table that still represents it. */
  lemma {:induction false} RunRefines(o: KeyOps, t: Table, m: map<Key, Value>, ops: seq<Op>)
    requires Lawful(o) && Refines(o, t, m) && AdmissibleRun(o, t, ops)
    ensures Refines(o, Run(o, t, ops).0, MapRun(o, m, ops).0) && Run(o, t, ops).1 == MapRun(o, m, ops).1
    decreases |ops|
  {
    if ops != [] {
      StepRefines(o, t, m, ops[0]);
      RunRefines(o, Step(o, t, ops[0]).0, MapStep(o, m, ops[0]).0, ops[1..]);
    }
  }

  /** With the library's address comparison a put of an address never meets a different equal key, so
      the acyclicity condition is all that is left: puts, replacing puts, removals, steals and resizes
      refine map update and deletion. */
  lemma {:induction false} AddressRunRefines(t: Table, m: map<Key, Value>, ops: seq<Op>)
    requires Refines(AddressOps(), t, m) && SaneRun(AddressOps(), t, ops)
    ensures var o := AddressOps();
            Refines(o, Run(o, t, ops).0, MapRun(o, m, ops).0) && Run(o, t, ops).1 == MapRun(o, m, ops).1
    decreases |ops|
  {
    LibraryOpsAreLawful();
    AddressAdmissible(t, ops);
    RunRefines(AddressOps(), t, m, ops);
  }

  lemma {:induction false} AddressAdmissible(t: Table, ops: seq<Op>)
    requires Inv(AddressOps(), t) && Straight(t) && SaneRun(AddressOps(), t, ops)
    ensures AdmissibleRun(AddressOps(), t, ops)
    decreases |ops|
  {
    var o := AddressOps();
    LibraryOpsAreLawful();
    if ops != [] {
      forall y | ops[0].PutOp? && y in Bag(t) && o.compare(y.key, ops[0].k) ensures y.key == ops[0].k {
        assert y.key.addr == ops[0].k.addr;
      }
      StepKeeps(o, t, ops[0]);
      AddressAdmissible(Step(o, t, ops[0]).0, ops[1..]);
    }
  }

  // ---- Runs without removals: the acyclicity condition takes care of itself ----

  /** No tombstone but a lone blank head. */
  predicate CleanRow(r: Bucket) {
    r.back == -1 && (r.slots == [VACANT] || (|r.slots| > 0 && forall i :: 0 <= i < |r.slots| ==> r.slots[i].occ))
  }

  predicate Clean(t: Table) {
    forall b :: 0 <= b < |t.rows| ==> CleanRow(t.rows[b])
  }

  lemma {:induction false} CleanInsert(o: KeyOps, r: Bucket, k: Key, v: Value)
    requires CleanRow(r)
    ensures CleanRow(Insert(o, r.slots, k, v).0)
    ensures FindOwn(o, r.slots, k) < |r.slots| || (forall i :: 0 <= i < |r.slots| ==> r.slots[i].occ)
            || !r.slots[|r.slots| - 1].occ
  {
    if r.slots == [VACANT] { assert r.slots[0 := Slot(true, k, v)] == [Slot(true, k, v)]; }
  }

  lemma {:induction false} CleanResize(o: KeyOps, t: Table)
    requires |t.rows| > 0 && Straight(t)
    ensures Clean(Resize(o, t))
  {
    var es, n := Entries(t.rows), INCREASE_FACTOR * |t.rows|;
    forall b | 0 <= b < n ensures CleanRow(Gathered(Share(o, n, b, es))) {
      var f := Share(o, n, b, es);
      forall i | 0 <= i < |f| ensures f[i].occ {
        ShareMember(o, n, b, es, f[i]);
        EntriesOccupied(t.rows, f[i]);
      }
    }
  }

  lemma {:induction false} CleanPut(o: KeyOps, t: Table, k: Key, v: Value)
    requires |t.rows| > 0 && Clean(t)
    ensures KeepsFinite(o, t, k) && Clean(Put(o, t, k, v).0)
  {
    var r := Roomy(o, t);
    if Full(t) { CleanResize(o, t); }
    var h := Home(o, |r.rows|, k);
    CleanInsert(o, r.rows[h], k, v);
  }

  /** Puts and lookups only, each put key new: non-null, not comparing equal to a stored key and at an
      address not in use. The condition speaks of the abstract map alone. */
  ghost predicate FreshRun(o: KeyOps, m: map<Key, Value>, ops: seq<Op>)
    decreases |ops|
  {
    ops != [] ==> FreshOp(o, m, ops[0]) && FreshRun(o, MapStep(o, m, ops[0]).0, ops[1..])
  }

  ghost predicate FreshOp(o: KeyOps, m: map<Key, Value>, op: Op) {
    && !op.RemoveOp? && op.k.Key?
    && (op.PutOp? ==> forall a :: a in m ==> !o.compare(a, op.k) && (a.Key? ==> a.addr != op.k.addr))
  }

  lemma {:induction false} FreshStep(o: KeyOps, t: Table, m: map<Key, Value>, op: Op)
    requires Lawful(o) && Refines(o, t, m) && Clean(t) && FreshOp(o, m, op)
    ensures Admissible(o, t, op) && Clean(Step(o, t, op).0)
  {
    if op.PutOp? {
      CleanPut(o, t, op.k, op.v);
      forall y | y in Bag(t) ensures y.key in m {
        assert y == Slot(true, y.key, y.value);
      }
    }
  }

  lemma {:induction false} FreshRunAdmissible(o: KeyOps, t: Table, m: map<Key, Value>, ops: seq<Op>)
    requires Lawful(o) && Refines(o, t, m) && Clean(t) && FreshRun(o, m, ops)
    ensures AdmissibleRun(o, t, ops) && Clean(Run(o, t, ops).0)
    decreases |ops|
  {
    if ops != [] {
      FreshStep(o, t, m, ops[0]);
      StepRefines(o, t, m, ops[0]);
      FreshRunAdmissible(o, Step(o, t, ops[0]).0, MapStep(o, m, ops[0]).0, ops[1..]);
    }
  }

  lemma {:induction false} FreshAnswers(o: KeyOps, m: map<Key, Value>, ops: seq<Op>)
    requires Lawful(o) && FreshRun(o, m, ops)
    ensures |MapRun(o, m, ops).1| == |ops|
    ensures forall i :: 0 <= i < |ops| && ops[i].PutOp? ==> MapRun(o, m, ops).1[i] == Flag(true)
    decreases |ops|
  {
    if ops != [] { FreshAnswers(o, MapStep(o, m, ops[0]).0, ops[1..]); }
  }

  /** For every history of lookups and fresh puts, with any resizes, the table refines the abstract
      map, has no tombstone other than blank heads, and every put answered true. */
  lemma {:induction false} FreshRunRefines(o: KeyOps, ops: seq<Op>)
    requires Lawful(o) && FreshRun(o, map[], ops)
    ensures var (t, answers) := Run(o, NewTable(), ops); var (m, expected) := MapRun(o, map[], ops);
            && Refines(o, t, m) && Clean(t) && answers == expected && |answers| == |ops|
            && (forall i :: 0 <= i < |ops| && ops[i].PutOp? ==> answers[i] == Flag(true))
  {
    NewTableInv(o);
    FreshRunAdmissible(o, NewTable(), map[], ops);
    RunRefines(o, NewTable(), map[], ops);
    FreshAnswers(o, map[], ops);
  }

  // ---- What a put does to lookups ----

  /** The bucket a put inserts into, after any resize. */
  function HomeSlots(o: KeyOps, t: Table, k: Key): seq<Slot>
    requires |t.rows| > 0
  {
    var r := Roomy(o, t);
    r.rows[Home(o, |r.rows|, k)].slots
  }

  /** For every put that comes to an end, on finite chains and circles: a refused one changes no lookup;
      otherwise the slot written is found from now on by the keys it compares equal to, unless an earlier slot
      of the bucket matches. */
  lemma {:induction false} PutFound(o: KeyOps, t: Table, k: Key, v: Value, q: Key)
    requires Lawful(o) && Inv(o, t) && Coherent(t, k) && PutEnds(o, t, k) && q.Key?
    ensures var s := HomeSlots(o, t, k);
            Lookup(o, Put(o, t, k, v).0, q) ==
            if !PutRefused(t) && o.compare(k, q) && Place(o, s, k) <= FirstMatch(o, s, q) then Some(Slot(true, k, v))
            else Lookup(o, t, q)
  {
    hide Inv, Coherent, Roomy, Insert, Place, FirstMatch, Found, InsertAt, PutEnds, PutRefused;
    RoomyLookup(o, t, q);
    RoomyKeeps(o, t);
    RoomyCoherent(o, t, k);
    InsertAtFound(o, Roomy(o, t), k, v, q);
  }

  lemma {:induction false} RoomyLookup(o: KeyOps, t: Table, q: Key)
    requires Lawful(o) && Inv(o, t) && q.Key?
    ensures Lookup(o, Roomy(o, t), q) == Lookup(o, t, q)
  {
    if Full(t) && Straight(t) { ResizeKeepsLookups(o, t, q); }
  }

  lemma {:induction false} RoomyCoherent(o: KeyOps, t: Table, k: Key)
    requires Lawful(o) && Inv(o, t) && Coherent(t, k)
    ensures Coherent(Roomy(o, t), k) && k.Key?
  {
    RoomyKeeps(o, t);
  }

  /** Insertion into one bucket, seen by a lookup of any key. */
  lemma {:induction false} InsertAtFound(o: KeyOps, t: Table, k: Key, v: Value, q: Key)
    requires Lawful(o) && Inv(o, t) && Coherent(t, k) && k.Key? && q.Key? && |t.rows| > 0
    ensures var s := t.rows[Home(o, |t.rows|, k)].slots;
            Lookup(o, InsertAt(o, t, k, v).0, q) ==
            if o.compare(k, q) && Place(o, s, k) <= FirstMatch(o, s, q) then Some(Slot(true, k, v))
            else Lookup(o, t, q)
  {
    hide Inv, Coherent, Insert, InsertInto, Place, FirstMatch, Found;
    IntoSlots(o, t.rows[Home(o, |t.rows|, k)], k, v);
    var h := Home(o, |t.rows|, k);
    HomeSlot(o, t, k);
    InsertFound(o, t.rows[h].slots, k, v, q);
  }

  /** The slot that insertion overwrites is blank or holds the key itself. */
  lemma {:induction false} HomeSlot(o: KeyOps, t: Table, k: Key)
    requires Lawful(o) && Inv(o, t) && Coherent(t, k)
    ensures var s := t.rows[Home(o, |t.rows|, k)].slots; var i := Place(o, s, k);
            i < |s| ==> s[i] == VACANT || s[i].key == k
  {
    var h := Home(o, |t.rows|, k);
    var s := t.rows[h].slots;
    var i := Place(o, s, k);
    OwnIffStored(o, t, k);
    if i < |s| { assert RowOk(o, |t.rows|, h, t.rows[h]) && SlotOk(o, |t.rows|, h, s[i]); }
  }

  lemma {:induction false} InsertFound(o: KeyOps, s: seq<Slot>, k: Key, v: Value, q: Key)
    requires Lawful(o) && k.Key? && q.Key?
    requires var i := Place(o, s, k); i < |s| ==> s[i] == VACANT || s[i].key == k
    ensures Found(o, Insert(o, s, k, v).0.slots, q) ==
            if o.compare(k, q) && Place(o, s, k) <= FirstMatch(o, s, q) then Some(Slot(true, k, v))
            else Found(o, s, q)
  {
    var i, x := Place(o, s, k), Slot(true, k, v);
    if i == |s| {
      FoundAppend(o, s, x, q);
    } else {
      FoundUpdate(o, s, i, x, q);
    }
  }

  /** Overwriting a slot by one that matches at least as much. */
  lemma {:induction false} FoundUpdate(o: KeyOps, s: seq<Slot>, i: nat, x: Slot, q: Key)
    requires i < |s| && (o.compare(s[i].key, q) ==> o.compare(x.key, q))
    requires o.compare(x.key, q) ==> s[i].key == x.key || !o.compare(s[i].key, q)
    ensures Found(o, s[i := x], q) ==
            if o.compare(x.key, q) && i <= FirstMatch(o, s, q) then Some(x) else Found(o, s, q)
  {
    var s' := s[i := x];
    var a, b := FirstMatch(o, s, q), FirstMatch(o, s', q);
    assert s'[i] == x && forall j :: 0 <= j < |s| && j != i ==> s'[j] == s[j];
    if o.compare(x.key, q) && i <= a {
      assert b == i;
    } else {
      assert b == a;
    }
  }

  /** On a chain that stays finite the slot written precedes every match exactly when there was none, or the
      first one was the key's own entry. */
  lemma {:induction false} PlaceFirst(o: KeyOps, s: seq<Slot>, k: Key, q: Key)
    requires Lawful(o) && |s| > 0 && k.Key? && q.Key? && o.compare(k, q)
    requires forall i :: 0 <= i < |s| ==> if s[i].occ then s[i].key.Key? else s[i] == VACANT
    requires FindOwn(o, s, k) < |s| ==> s[FindOwn(o, s, k)].key == k
    requires FindOwn(o, s, k) < |s| || (forall i :: 0 <= i < |s| ==> s[i].occ) || !s[|s| - 1].occ
    ensures Place(o, s, k) <= FirstMatch(o, s, q) <==>
            match Found(o, s, q) case None => true case Some(x) => x.key == k
  {
    var own, a := FindOwn(o, s, k), FirstMatch(o, s, q);
    if own < |s| {
      assert o.compare(s[own].key, q);
      assert a <= own;
    }
    if a < |s| && s[a].key == k { assert Own(o, s[a], k); }
  }

  /** What every lookup finds after a put on chains that stay finite: the entry found before, unless it was
      the one at the key's own address, which is replaced; if there was none, the new one where it matches. */
  lemma {:induction false} PutLookup(o: KeyOps, t: Table, k: Key, v: Value, q: Key)
    requires Lawful(o) && Inv(o, t) && Straight(t) && Sane(o, t, PutOp(k, v)) && q.Key?
    ensures Lookup(o, Put(o, t, k, v).0, q) ==
            match Lookup(o, t, q)
            case Some(x) => Some(if x.key == k then Slot(true, k, v) else x)
            case None => if o.compare(k, q) then Some(Slot(true, k, v)) else None
  {
    hide Inv, Put, Roomy, Place, PutEnds, PutRefused, KeepsFinite;
    StraightPutEnds(o, t, k);
    PutFound(o, t, k, v, q);
    if o.compare(k, q) { PutPlace(o, t, k, q); }
  }

  lemma {:induction false} PutPlace(o: KeyOps, t: Table, k: Key, q: Key)
    requires Lawful(o) && Inv(o, t) && Coherent(t, k) && KeepsFinite(o, t, k) && q.Key? && o.compare(k, q)
    ensures var s := HomeSlots(o, t, k);
            Place(o, s, k) <= FirstMatch(o, s, q) <==>
            match Lookup(o, t, q) case None => true case Some(x) => x.key == k
  {
    hide Inv, Coherent, Roomy, Place, FirstMatch, Found, FindOwn;
    RoomyKeeps(o, t);
    RoomyCoherent(o, t, k);
    RoomyLookup(o, t, q);
    HomePlace(o, Roomy(o, t), k, q);
  }

  lemma {:induction false} HomePlace(o: KeyOps, t: Table, k: Key, q: Key)
    requires Lawful(o) && Inv(o, t) && Coherent(t, k) && k.Key? && q.Key? && o.compare(k, q) && |t.rows| > 0
    requires var s := t.rows[Home(o, |t.rows|, k)].slots;
             FindOwn(o, s, k) < |s| || (forall i :: 0 <= i < |s| ==> s[i].occ) || (|s| > 0 && !s[|s| - 1].occ)
    ensures var s := t.rows[Home(o, |t.rows|, k)].slots;
            Place(o, s, k) <= FirstMatch(o, s, q) <==>
            match Found(o, s, q) case None => true case Some(x) => x.key == k
  {
    hide Place, FirstMatch, Found, FindOwn, Separate, Entries;
    var h := Home(o, |t.rows|, k);
    OwnIffStored(o, t, k);
    assert RowOk(o, |t.rows|, h, t.rows[h]);
    forall i | 0 <= i < |t.rows[h].slots|
      ensures var x := t.rows[h].slots[i]; if x.occ then x.key.Key? else x == VACANT
    {
      assert SlotOk(o, |t.rows|, h, t.rows[h].slots[i]);
    }
    PlaceFirst(o, t.rows[h].slots, k, q);
  }

  /** The header says a put displaces duplicate keys. After any put that is not refused the new value is the
      one found exactly when no slot before the one written matches, or the first that does has that value
      already. Where chains stay finite that can be read off a lookup before the put: it finds nothing, the
      key's own entry, or the same value. */
  lemma {:induction false} PutDisplacesExactly(o: KeyOps, t: Table, k: Key, v: Value)
    requires Lawful(o) && Inv(o, t) && Coherent(t, k) && PutEnds(o, t, k)
    ensures var s := HomeSlots(o, t, k); var i := FirstMatch(o, s, k);
            Get(o, Put(o, t, k, v).0, k) == Some(v) <==>
            if PutRefused(t) then Get(o, t, k) == Some(v) else Place(o, s, k) <= i || s[i].value == v
    ensures Straight(t) && KeepsFinite(o, t, k) ==>
              (Get(o, Put(o, t, k, v).0, k) == Some(v) <==>
               match Lookup(o, t, k) case None => true case Some(x) => x.key == k || x.value == v)
  {
    hide Inv, Put, Roomy, Place, KeepsFinite, PutEnds, PutRefused;
    PutFound(o, t, k, v, k);
    RoomyLookup(o, t, k);
    if Straight(t) && KeepsFinite(o, t, k) {
      StraightPutEnds(o, t, k);
      PutPlace(o, t, k, k);
    }
  }

  // ---- Small histories that show what the conditions are for ----

  /** Buckets of a fresh table with one of them filled. */
  function Only(s: seq<Slot>): seq<Bucket> {
    NewTable().rows[0 := Bucket(s, -1)]
  }

  /** A put into bucket 0 that leaves a finite chain. */
  lemma {:induction false} PutInFirst(o: KeyOps, k: Key, v: Value, s: seq<Slot>, size: nat, released: seq<Slot>,
                                         s': seq<Slot>, inc: nat)
    requires k.Key? && o.hash(k) % INITIAL_SIZE == 0 && size < 42
    requires Insert(o, s, k, v) == (Bucket(s', -1), inc)
    ensures var i := FindOwn(o, s, k);
            Put(o, Table(Only(s), size, released), k, v) ==
            (Table(Only(s'), size + inc, if i < |s| then released + [s[i]] else released), inc > 0)
  {
    var t := Table(Only(s), size, released);
    assert |t.rows| == INITIAL_SIZE && NextSize(INITIAL_SIZE) == 42;
    assert t.rows[0] == Bucket(s, -1);
    assert t.rows[0 := Bucket(s', -1)] == Only(s');
    assert released + [] == released;
  }

  lemma {:induction false} RemoveFirst(a: Key, x: Slot, y: Slot)
    requires a == Key(61, "") && x == Slot(true, a, 1) && y == Slot(true, Key(122, ""), 2)
    ensures Remove(AddressOps(), Table(Only([x, y]), 2, []), a, true) == (Table(Only([VACANT, y]), 1, [x]), true)
  {
    var t := Table(Only([x, y]), 2, []);
    assert t.rows[0] == Bucket([x, y], -1);
    assert FirstMatch(AddressOps(), [x, y], a) == 0;
    assert [x, y][0 := VACANT] == [VACANT, y];
    assert t.rows[0 := Bucket([VACANT, y], -1)] == Only([VACANT, y]);
    assert [] + [x] == [x];
  }

  lemma {:induction false} RunOne(o: KeyOps, t: Table, op: Op, rest: seq<Op>)
    requires |t.rows| > 0
    ensures var (t1, a) := Step(o, t, op); var (t2, as') := Run(o, t1, rest);
            Run(o, t, [op] + rest) == (t2, [a] + as')
  {
    assert ([op] + rest)[1..] == rest;
  }

  /** Put two keys of one bucket, remove the first, put a third: the chain is closed into a cycle. */
  lemma CycleExample()
    ensures var o := AddressOps(); var a, b, c := Key(61, ""), Key(122, ""), Key(183, "");
            var t := Run(o, NewTable(), [PutOp(a, 1), PutOp(b, 2), RemoveOp(a, true)]).0;
            && t.rows[0].slots == [VACANT, Slot(true, b, 2)] && t.size < NextSize(|t.rows|)
            && !KeepsFinite(o, t, c)
            && Put(o, t, c, 3).0.rows[0] == Bucket([Slot(true, c, 3), Slot(true, b, 2)], 0)
  {
    var o, c, y := AddressOps(), Key(183, ""), Slot(true, Key(122, ""), 2);
    CyclePrelude();
    var t := Table(Only([VACANT, y]), 1, [Slot(true, Key(61, ""), 1)]);
    assert t.rows[0] == Bucket([VACANT, y], -1) && NextSize(INITIAL_SIZE) == 42;
    hide Insert, FindOwn, Run;
    CycleInsert();
  }

  lemma CycleInsert()
    ensures var c, y := Key(183, ""), Slot(true, Key(122, ""), 2);
            Insert(AddressOps(), [VACANT, y], c, 3) == (Bucket([Slot(true, c, 3), y], 0), 1)
            && FindOwn(AddressOps(), [VACANT, y], c) == 2
  {
    var c, y := Key(183, ""), Slot(true, Key(122, ""), 2);
    assert LastTomb([VACANT, y]) == 0 by { assert [VACANT, y][..1] == [VACANT]; }
    assert [VACANT, y][0 := Slot(true, c, 3)] == [Slot(true, c, 3), y];
  }

  lemma CyclePrelude()
    ensures var a, b := Key(61, ""), Key(122, "");
            Run(AddressOps(), NewTable(), [PutOp(a, 1), PutOp(b, 2), RemoveOp(a, true)]).0
            == Table(Only([VACANT, Slot(true, b, 2)]), 1, [Slot(true, a, 1)])
  {
    var o, a, b := AddressOps(), Key(61, ""), Key(122, "");
    var x, y := Slot(true, a, 1), Slot(true, b, 2);
    var p, q, r := PutOp(a, 1), PutOp(b, 2), RemoveOp(a, true);
    CyclePuts();
    RemoveFirst(a, x, y);
    hide Put, Remove, Only;
    RunOne(o, NewTable(), p, [q, r]);
    RunOne(o, Table(Only([x]), 1, []), q, [r]);
    RunOne(o, Table(Only([x, y]), 2, []), r, []);
    assert [p] + [q, r] == [p, q, r] && [q] + [r] == [q, r] && [r] + [] == [r];
  }

  lemma CyclePuts()
    ensures var o := AddressOps(); var a, b := Key(61, ""), Key(122, "");
            var x, y := Slot(true, a, 1), Slot(true, b, 2);
            && Put(o, NewTable(), a, 1) == (Table(Only([x]), 1, []), true)
            && Put(o, Table(Only([x]), 1, []), b, 2) == (Table(Only([x, y]), 2, []), true)
  {
    var o, a, b := AddressOps(), Key(61, ""), Key(122, "");
    var x, y := Slot(true, a, 1), Slot(true, b, 2);
    assert NewTable() == Table(Only([VACANT]), 0, []);
    assert [VACANT][0 := x] == [x] && [x] + [y] == [x, y];
    hide Put, Only;
    PutInFirst(o, a, 1, [VACANT], 0, [], [x], 1);
    PutInFirst(o, b, 2, [x], 1, [], [x, y], 1);
  }

  /** Putting the same key twice: the second call stores the new value and still answers false. */
  lemma ReplaceExample()
    ensures var o := AddressOps(); var a := Key(61, "");
            Run(o, NewTable(), [PutOp(a, 1), PutOp(a, 2), GetOp(a)]).1 == [Flag(true), Flag(false), Looked(Some(2))]
  {
    var o, a := AddressOps(), Key(61, "");
    var x, y := Slot(true, a, 1), Slot(true, a, 2);
    var p, q, r := PutOp(a, 1), PutOp(a, 2), GetOp(a);
    assert NewTable() == Table(Only([VACANT]), 0, []);
    assert [VACANT][0 := x] == [x];
    PutInFirst(o, a, 1, [VACANT], 0, [], [x], 1);
    assert FindOwn(o, [x], a) == 0 && [x][0 := y] == [y];
    PutInFirst(o, a, 2, [x], 1, [], [y], 0);
    var t := Table(Only([y]), 1, [] + [x]);
    assert t.rows[0] == Bucket([y], -1) && FirstMatch(o, [y], a) == 0;
    RunOne(o, NewTable(), p, [q, r]);
    RunOne(o, Table(Only([x]), 1, []), q, [r]);
    RunOne(o, t, r, []);
    assert [p] + [q, r] == [p, q, r] && [q] + [r] == [q, r] && [r] + [] == [r];
  }

  /** Two addresses with one text, the second put twice: its entry is replaced and its lookup still answers
      with the value of the first. */
  lemma SecondAddressExample()
    ensures var o := StringOps(); var a, b := Key(1, "x"), Key(2, "x");
            Run(o, NewTable(), [PutOp(a, 1), PutOp(b, 2), PutOp(b, 3), GetOp(b)]).1
            == [Flag(true), Flag(true), Flag(false), Looked(Some(1))]
  {
    var o, a, b := StringOps(), Key(1, "x"), Key(2, "x");
    var x, y, z := Slot(true, a, 1), Slot(true, b, 2), Slot(true, b, 3);
    var p, q, r, g := PutOp(a, 1), PutOp(b, 2), PutOp(b, 3), GetOp(b);
    var t1, t2, t3 := Table(Only([x]), 1, []), Table(Only([x, y]), 2, []), Table(Only([x, z]), 2, [y]);
    SecondAddressPuts();
    hide Put, Lookup, Only;
    RunOne(o, NewTable(), p, [q, r, g]);
    RunOne(o, t1, q, [r, g]);
    RunOne(o, t2, r, [g]);
    RunOne(o, t3, g, []);
    assert [p] + [q, r, g] == [p, q, r, g] && [q] + [r, g] == [q, r, g] && [r] + [g] == [r, g] && [g] + [] == [g];
  }

  lemma SecondAddressPuts()
    ensures var o := StringOps(); var a, b := Key(1, "x"), Key(2, "x");
            var x, y, z := Slot(true, a, 1), Slot(true, b, 2), Slot(true, b, 3);
            && Put(o, NewTable(), a, 1) == (Table(Only([x]), 1, []), true)
            && Put(o, Table(Only([x]), 1, []), b, 2) == (Table(Only([x, y]), 2, []), true)
            && Put(o, Table(Only([x, y]), 2, []), b, 3) == (Table(Only([x, z]), 2, [y]), false)
            && |Only([x, z])| > 0 && Get(o, Table(Only([x, z]), 2, [y]), b) == Some(1)
  {
    var o, a, b := StringOps(), Key(1, "x"), Key(2, "x");
    var x, y, z := Slot(true, a, 1), Slot(true, b, 2), Slot(true, b, 3);
    assert HashPoly("x") == 177693 by { assert "x"[..0] == ""; }
    SecondAddressInserts();
    assert NewTable() == Table(Only([VACANT]), 0, []);
    assert Only([x, z])[0] == Bucket([x, z], -1);
    assert [] + [y] == [y];
    hide Put, Insert, FindOwn, FirstMatch, Only, HashPoly;
    PutInFirst(o, a, 1, [VACANT], 0, [], [x], 1);
    PutInFirst(o, b, 2, [x], 1, [], [x, y], 1);
    PutInFirst(o, b, 3, [x, y], 2, [], [x, z], 0);
  }

  lemma SecondAddressInserts()
    ensures var o := StringOps(); var a, b := Key(1, "x"), Key(2, "x");
            var x, y, z := Slot(true, a, 1), Slot(true, b, 2), Slot(true, b, 3);
            && Insert(o, [VACANT], a, 1) == (Bucket([x], -1), 1) && FindOwn(o, [VACANT], a) == 1
            && Insert(o, [x], b, 2) == (Bucket([x, y], -1), 1) && FindOwn(o, [x], b) == 1
            && Insert(o, [x, y], b, 3) == (Bucket([x, z], -1), 0) && FindOwn(o, [x, y], b) == 1
            && FirstMatch(o, [x, z], b) == 0
  {
    var a, b := Key(1, "x"), Key(2, "x");
    var x, y, z := Slot(true, a, 1), Slot(true, b, 2), Slot(true, b, 3);
    assert [VACANT][0 := x] == [x] && [x] + [y] == [x, y] && [x, y][1 := z] == [x, z];
  }
}
