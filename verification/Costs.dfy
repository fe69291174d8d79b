/** Conservation of entries, load factor and the amortised cost of resizing, over whole runs. */
module Costs {
  import opened Keys
  import opened Chains
  import opened Tables
  import opened Refinement
  import opened Histories

  // ---- Conservation: every entry ever put is stored, destroyed or handed back, once ----

  function Brought(ops: seq<Op>): multiset<Slot> {
    if ops == [] then multiset{}
    else (if ops[0].PutOp? then multiset{Slot(true, ops[0].k, ops[0].v)} else multiset{}) + Brought(ops[1..])
  }

  /** The entry a steal hands back to its caller. */
  function Handed(o: KeyOps, t: Table, op: Op): multiset<Slot>
    requires |t.rows| > 0
  {
    if op.RemoveOp? && !op.nuke then
      var s := t.rows[Home(o, |t.rows|, op.k)].slots;
      var i := FirstMatch(o, s, op.k);
      if i < |s| then multiset{s[i]} else multiset{}
    else multiset{}
  }

  function Stolen(o: KeyOps, t: Table, ops: seq<Op>): multiset<Slot>
    requires |t.rows| > 0
    decreases |ops|
  {
    if ops == [] then multiset{} else Handed(o, t, ops[0]) + Stolen(o, Step(o, t, ops[0]).0, ops[1..])
  }

  ghost function Account(t: Table): multiset<Slot> { Bag(t) + multiset(t.released) }

  lemma {:induction false} PutAccount(o: KeyOps, t: Table, k: Key, v: Value)
    requires Lawful(o) && Inv(o, t) && Straight(t) && Coherent(t, k)
    ensures Account(Put(o, t, k, v).0) == Account(t) + multiset{Slot(true, k, v)}
  {
    var (t', added) := Put(o, t, k, v);
    var x := Slot(true, k, v);
    StraightPutEnds(o, t, k);
    hide Put, Roomy, PutEnds, Inv;
    PutKeeps(o, t, k, v);
    if !added {
      var r := t.(rows := Roomy(o, t).rows);
      var y :| y in Bag(r) && y.key == k && Replaced(r, t', x, y);
      assert multiset(t'.released) == multiset(t.released) + multiset{y};
      Regroup(Bag(t'), Bag(t), multiset(t.released), multiset{y}, multiset{x});
    } else {
      Regroup(Bag(t'), Bag(t), multiset(t.released), multiset{}, multiset{x});
    }
  }

  lemma {:induction false} Regroup<T>(b': multiset<T>, b: multiset<T>, r: multiset<T>, y: multiset<T>, x: multiset<T>)
    requires b' + y == b + x
    ensures b' + (r + y) == (b + r) + x
  {
    assert b' + (r + y) == (b' + y) + r;
  }

  lemma {:induction false} RemoveAccount(o: KeyOps, t: Table, k: Key, nuke: bool)
    requires Lawful(o) && Inv(o, t) && k.Key?
    ensures Account(Remove(o, t, k, nuke).0) + Handed(o, t, RemoveOp(k, nuke)) == Account(t)
  {
    var (t', found) := Remove(o, t, k, nuke);
    if found {
      var h := Home(o, |t.rows|, k);
      var s := t.rows[h].slots;
      var i := FirstMatch(o, s, k);
      assert RowOk(o, |t.rows|, h, t.rows[h]) && SlotOk(o, |t.rows|, h, s[i]);
      RemoveBag(o, t, h, i);
      TakenAccount(Bag(t'), Bag(t), t.released, s[i], nuke);
    }
  }

  lemma {:induction false} TakenAccount(b': multiset<Slot>, b: multiset<Slot>, r: seq<Slot>, y: Slot, nuke: bool)
    requires y in b && b' == b - multiset{y}
    ensures b' + multiset(r + (if nuke then [y] else [])) + (if nuke then multiset{} else multiset{y})
            == b + multiset(r)
  {
    assert b' + multiset{y} == b;
    if nuke {
      assert multiset(r + [y]) == multiset(r) + multiset{y};
    } else {
      assert r + [] == r;
    }
  }

  lemma {:induction false} StepAccount(o: KeyOps, t: Table, op: Op)
    requires Lawful(o) && Inv(o, t) && Straight(t) && Sane(o, t, op)
    ensures Account(Step(o, t, op).0) + Handed(o, t, op) == Account(t) + Brought([op])
  {
    assert Brought([op]) == if op.PutOp? then multiset{Slot(true, op.k, op.v)} else multiset{};
    match op
    case PutOp(k, v) => PutAccount(o, t, k, v);
    case GetOp(k) =>
    case RemoveOp(k, nuke) => RemoveAccount(o, t, k, nuke);
  }

  /** Over any run: what was brought in is exactly what is stored, plus what the destructors were
      called on, plus what was handed back by steal, each with its multiplicity. */
  lemma {:induction false} RunAccount(o: KeyOps, t: Table, ops: seq<Op>)
    requires Lawful(o) && Inv(o, t) && Straight(t) && SaneRun(o, t, ops)
    ensures Account(Run(o, t, ops).0) + Stolen(o, t, ops) == Account(t) + Brought(ops)
    decreases |ops|
  {
    hide RowsOk, Separate, Straight, Sane, Account, Handed, Step;
    if ops != [] {
      var t1 := Step(o, t, ops[0]).0;
      StepKeeps(o, t, ops[0]);
      StepAccount(o, t, ops[0]);
      RunAccount(o, t1, ops[1..]);
      assert Brought(ops) == Brought([ops[0]]) + Brought(ops[1..]);
      Chain(Account(Run(o, t1, ops[1..]).0), Stolen(o, t1, ops[1..]), Account(t1), Brought(ops[1..]),
            Handed(o, t, ops[0]), Account(t), Brought([ops[0]]));
    }
  }

  lemma {:induction false} Chain<T>(f: multiset<T>, s: multiset<T>, a1: multiset<T>, b: multiset<T>,
                                    h: multiset<T>, a: multiset<T>, c: multiset<T>)
    requires f + s == a1 + b && a1 + h == a + c
    ensures f + (h + s) == a + (c + b)
  {
    assert f + (h + s) == (f + s) + h;
    assert (a1 + b) + h == (a1 + h) + b;
  }

  lemma {:induction false} NothingStolen(o: KeyOps, t: Table, ops: seq<Op>)
    requires |t.rows| > 0 && forall i :: 0 <= i < |ops| ==> ops[i].RemoveOp? ==> ops[i].nuke
    ensures Stolen(o, t, ops) == multiset{}
    decreases |ops|
  {
    if ops != [] { NothingStolen(o, Step(o, t, ops[0]).0, ops[1..]); }
  }

  /** A map that is used without steals and then freed: over its life the destructors are called on
      exactly the entries that were put, once for each put. (`Hashmap.FreeMap` calls them on the entries
      still stored, after those already released.) */
  lemma {:induction false} DestroyedOnce(o: KeyOps, ops: seq<Op>)
    requires Lawful(o) && SaneRun(o, NewTable(), ops)
    requires forall i :: 0 <= i < |ops| ==> ops[i].RemoveOp? ==> ops[i].nuke
    ensures var t := Run(o, NewTable(), ops).0; multiset(t.released + Entries(t.rows)) == Brought(ops)
  {
    hide Run, Brought, SaneRun, Inv, Entries;
    NewTableInv(o);
    RunAccount(o, NewTable(), ops);
    NothingStolen(o, NewTable(), ops);
    var t := Run(o, NewTable(), ops).0;
    FreshAccount();
    Concatenated(t.released, Entries(t.rows), Brought(ops));
  }

  lemma FreshAccount()
    ensures Account(NewTable()) == multiset{}
  {
    NoEntries(NewTable().rows);
  }

  lemma {:induction false} Concatenated<T>(r: seq<T>, e: seq<T>, b: multiset<T>)
    requires multiset(e) + multiset(r) + multiset{} == multiset{} + b
    ensures multiset(r + e) == b
  {
    assert multiset{} + b == b;
  }

  // ---- Load ----

  lemma {:induction false} FullRowsCount(rows: seq<Bucket>)
    requires forall b :: 0 <= b < |rows| ==> Occupied(rows[b].slots) != []
    ensures |Entries(rows)| >= |rows|
  {
    if rows != [] { FullRowsCount(rows[..|rows| - 1]); }
  }

  /** The load stays at or below 70%, so some bucket always holds no entry. */
  lemma {:induction false} SomeBucketIsEmpty(o: KeyOps, t: Table)
    requires Inv(o, t)
    ensures 10 * t.size <= 7 * |t.rows|
    ensures exists b :: 0 <= b < |t.rows| && Occupied(t.rows[b].slots) == []
  {
    if forall b :: 0 <= b < |t.rows| ==> Occupied(t.rows[b].slots) != [] { FullRowsCount(t.rows); }
  }

  lemma {:induction false} Pow4Mono(a: nat, b: nat)
    requires a <= b
    ensures 1 <= Pow4(a) <= Pow4(b)
    decreases b
  {
    if a < b { Pow4Mono(a, b - 1); }
    if a == b && a > 0 { Pow4Mono(a - 1, b - 1); }
  }

  /** The bucket count fits a C int up to the twelfth resize and not beyond. */
  lemma {:induction false} BucketCountFitsInt(k: nat)
    ensures INITIAL_SIZE * Pow4(k) <= 0x7fff_ffff <==> k <= 12
  {
    assert Pow4(4) == 256;
    assert Pow4(8) == 65536;
    assert Pow4(12) == 16777216;
    assert Pow4(13) == 67108864;
    if k <= 12 { Pow4Mono(k, 12); } else { Pow4Mono(13, k); }
  }

  /** Seven tenths of a bucket count is never within a tenth of an integer. */
  lemma {:induction false} LimitFraction(k: nat)
    ensures 7 * (INITIAL_SIZE * Pow4(k)) % 10 in [2, 7, 8]
  {
    if k > 0 { LimitFraction(k - 1); }
  }

  /** A bound on the relative error of one rounding to a double, which is 2^-53. */
  const ROUNDING: real := 0.000000000000001

  /** x is y up to one rounding. */
  predicate Rounded(x: real, y: real) {
    y * (1.0 - ROUNDING) <= x <= y * (1.0 + ROUNDING)
  }

  /** So the limit computed with a rounded 0.7 and a rounded product is the exact one, for every bucket count
      that fits an int. */
  lemma {:induction false} LimitInFloatingPoint(n: nat, factor: real, product: real)
    requires Grown(n) && n <= 0x7fff_ffff
    requires Rounded(factor, FULL_FACTOR) && Rounded(product, n as real * factor)
    ensures product.Floor == NextSize(n)
  {
    hide Rounded;
    var k: nat :| n == INITIAL_SIZE * Pow4(k);
    LimitFraction(k);
    TwoRoundings(n as real, factor, product);
    FloorNear(n, product);
  }

  lemma {:induction false} FloorNear(n: nat, x: real)
    requires 7 * n % 10 in [2, 7, 8]
    requires n as real * FULL_FACTOR - 0.02 <= x <= n as real * FULL_FACTOR + 0.02
    ensures x.Floor == 7 * n / 10
  {
    var q := 7 * n / 10;
    assert q as real + 0.1 <= n as real * FULL_FACTOR <= q as real + 0.9;
  }

  lemma {:induction false} TwoRoundings(n: real, factor: real, product: real)
    requires 0.0 <= n <= 2147483647.0 && Rounded(factor, FULL_FACTOR) && Rounded(product, n * factor)
    ensures n * FULL_FACTOR - 0.02 <= product <= n * FULL_FACTOR + 0.02
  {
    var e := factor - FULL_FACTOR;
    ErrorTerm(n, e);
    assert n * factor == n * FULL_FACTOR + n * e;
    OneRounding(product, n * factor);
  }

  lemma {:induction false} ErrorTerm(n: real, e: real)
    requires 0.0 <= n <= 2147483647.0 && -0.000000000000001 <= e <= 0.000000000000001
    ensures -0.01 <= n * e <= 0.01
  {
    ErrorAbove(n, e, 0.000000000000001);
    ErrorAbove(n, -e, 0.000000000000001);
    assert n * -e == -(n * e);
  }

  lemma {:induction false} ErrorAbove(n: real, e: real, c: real)
    requires 0.0 <= n <= 2147483647.0 && e <= c == 0.000000000000001
    ensures n * e <= 0.01
  {
    assert n * (c - e) >= 0.0;
    assert n * e <= n * c <= 2147483647.0 * c;
    assert 2147483647.0 * c <= 0.01;
  }

  lemma {:induction false} OneRounding(x: real, y: real)
    requires 0.0 <= y <= 2147483647.0 && Rounded(x, y)
    ensures y - 0.01 <= x <= y + 0.01
  {
  }

  // ---- Cost of resizing ----

  /** Entries moved by one operation: all of them when it resizes. */
  function Moved(t: Table, op: Op): nat
    requires |t.rows| > 0
  {
    if op.PutOp? && t.size >= NextSize(|t.rows|) then |Entries(t.rows)| else 0
  }

  function Moves(o: KeyOps, t: Table, ops: seq<Op>): nat
    requires |t.rows| > 0
    decreases |ops|
  {
    if ops == [] then 0 else Moved(t, ops[0]) + Moves(o, Step(o, t, ops[0]).0, ops[1..])
  }

  /** Puts that added an entry. */
  function Added(o: KeyOps, t: Table, ops: seq<Op>): nat
    requires |t.rows| > 0
    decreases |ops|
  {
    if ops == [] then 0
    else (if ops[0].PutOp? && Step(o, t, ops[0]).1 == Flag(true) then 1 else 0)
         + Added(o, Step(o, t, ops[0]).0, ops[1..])
  }

  /** Credit left by earlier operations: moves already paid for by the load and by the puts. */
  ghost predicate Paid(t: Table, moves: nat, added: nat) {
    3 * moves <= NextSize(|t.rows|) && 3 * moves <= 4 * added && t.size <= added
  }

  lemma {:induction false} StepPaid(o: KeyOps, t: Table, op: Op, moves: nat, added: nat)
    requires Lawful(o) && Inv(o, t) && Straight(t) && Sane(o, t, op) && Paid(t, moves, added)
    ensures Paid(Step(o, t, op).0, moves + Moved(t, op),
                 added + if op.PutOp? && Step(o, t, op).1 == Flag(true) then 1 else 0)
  {
    match op
    case PutOp(k, v) => PutPaid(o, t, k, v, moves, added);
    case GetOp(k) =>
    case RemoveOp(k, nuke) => RemoveKeeps(o, t, k, nuke); RemoveSize(o, t, k, nuke);
  }

  lemma {:induction false} PutPaid(o: KeyOps, t: Table, k: Key, v: Value, moves: nat, added: nat)
    requires Lawful(o) && Inv(o, t) && Straight(t) && Coherent(t, k) && Paid(t, moves, added)
    ensures var (t', b) := Put(o, t, k, v);
            Paid(t', moves + Moved(t, PutOp(k, v)), added + if b then 1 else 0)
  {
    PutSizes(o, t, k, v);
  }

  lemma {:induction false} PutSizes(o: KeyOps, t: Table, k: Key, v: Value)
    requires Lawful(o) && Inv(o, t) && Straight(t) && Coherent(t, k)
    ensures var (t', b) := Put(o, t, k, v); var full := t.size >= NextSize(|t.rows|);
            && t'.size == t.size + (if b then 1 else 0)
            && |t'.rows| == (if full then INCREASE_FACTOR * |t.rows| else |t.rows|)
            && t.size <= NextSize(|t.rows|) && Moved(t, PutOp(k, v)) == if full then t.size else 0
  {
    StraightPutEnds(o, t, k);
    hide Put, PutEnds;
    PutKeeps(o, t, k, v);
    assert |Bag(t)| == |Entries(t.rows)|;
  }

  lemma {:induction false} RemoveSize(o: KeyOps, t: Table, k: Key, nuke: bool)
    requires |t.rows| > 0
    ensures var t' := Remove(o, t, k, nuke).0; t'.size <= t.size && |t'.rows| == |t.rows|
  {
  }

  lemma {:induction false} RunPaid(o: KeyOps, t: Table, ops: seq<Op>, moves: nat, added: nat)
    requires Lawful(o) && Inv(o, t) && Straight(t) && SaneRun(o, t, ops) && Paid(t, moves, added)
    ensures Paid(Run(o, t, ops).0, moves + Moves(o, t, ops), added + Added(o, t, ops))
    decreases |ops|
  {
    if ops != [] {
      var t1, m1 := Step(o, t, ops[0]).0, moves + Moved(t, ops[0]);
      var a1 := added + if ops[0].PutOp? && Step(o, t, ops[0]).1 == Flag(true) then 1 else 0;
      StepKeeps(o, t, ops[0]);
      StepPaid(o, t, ops[0], moves, added);
      RunPaid(o, t1, ops[1..], m1, a1);
    }
  }

  lemma {:induction false} StepSize(o: KeyOps, t: Table, op: Op)
    requires Lawful(o) && Inv(o, t) && Straight(t) && Sane(o, t, op) && !op.RemoveOp?
    ensures Step(o, t, op).0.size == t.size + if op.PutOp? && Step(o, t, op).1 == Flag(true) then 1 else 0
  {
    if op.PutOp? { PutSizes(o, t, op.k, op.v); }
  }

  /** Without removals nothing is forgotten: the size is the number of puts that added. */
  lemma {:induction false} SizeIsAdded(o: KeyOps, t: Table, ops: seq<Op>)
    requires Lawful(o) && Inv(o, t) && Straight(t) && SaneRun(o, t, ops)
    requires forall i :: 0 <= i < |ops| ==> !ops[i].RemoveOp?
    ensures Run(o, t, ops).0.size == t.size + Added(o, t, ops)
    decreases |ops|
  {
    if ops != [] {
      StepKeeps(o, t, ops[0]);
      StepSize(o, t, ops[0]);
      SizeIsAdded(o, Step(o, t, ops[0]).0, ops[1..]);
    }
  }

  /** Amortised cost from an empty map: all resizes together move at most 4/3 of the puts that added
      an entry, removals or not; without removals that is 4/3 of the final size. */
  lemma {:induction false} ResizeCost(o: KeyOps, ops: seq<Op>)
    requires Lawful(o) && SaneRun(o, NewTable(), ops)
    ensures 3 * Moves(o, NewTable(), ops) <= 4 * Added(o, NewTable(), ops)
    ensures (forall i :: 0 <= i < |ops| ==> !ops[i].RemoveOp?) ==>
              3 * Moves(o, NewTable(), ops) <= 4 * Run(o, NewTable(), ops).0.size
  {
    NewTableInv(o);
    RunPaid(o, NewTable(), ops, 0, 0);
    if forall i :: 0 <= i < |ops| ==> !ops[i].RemoveOp? { SizeIsAdded(o, NewTable(), ops); }
  }

  /** Every table a run from the empty map can reach keeps the invariant. */
  lemma {:induction false} RunKeeps(o: KeyOps, t: Table, ops: seq<Op>)
    requires Lawful(o) && Inv(o, t) && Straight(t) && SaneRun(o, t, ops)
    ensures Inv(o, Run(o, t, ops).0) && Straight(Run(o, t, ops).0)
    decreases |ops|
  {
    if ops != [] {
      StepKeeps(o, t, ops[0]);
      RunKeeps(o, Step(o, t, ops[0]).0, ops[1..]);
    }
  }
}
