/** The whole table as a value: buckets, entry count, and the entries whose destructors have run.
    Every operation of the map is a function here; the heap version is proved equal to it. */
module Tables {
  import opened Keys
  import opened Chains

  const INITIAL_SIZE: nat := 61
  const INCREASE_FACTOR: nat := 4
  const FULL_FACTOR: real := 0.7

  /** `released` lists, in order, the entries on which `key_free` and `value_free` were called. */
  datatype Table = Table(rows: seq<Bucket>, size: int, released: seq<Slot>)

  function NextSize(n: nat): (s: int)
    ensures s == 7 * n / 10
  {
    (n as real * FULL_FACTOR).Floor
  }

  /** `hash % n_buckets`. */
  function Home(o: KeyOps, n: nat, k: Key): (b: nat)
    requires n > 0
    ensures b < n
  {
    o.hash(k) % n
  }

  /** All occupied slots in bucket order, then chain order. */
  function Entries(rows: seq<Bucket>): seq<Slot> {
    if rows == [] then []
    else Entries(rows[..|rows| - 1]) + Occupied(rows[|rows| - 1].slots)
  }

  ghost function Bag(t: Table): multiset<Slot> { multiset(Entries(t.rows)) }

  function NewTable(): Table {
    Table(seq(INITIAL_SIZE, _ => Bucket([VACANT], -1)), 0, [])
  }

  // ---- Operations ----

  /** The entry a lookup finds. */
  function Lookup(o: KeyOps, t: Table, k: Key): Option<Slot>
    requires |t.rows| > 0
  {
    Found(o, t.rows[Home(o, |t.rows|, k)].slots, k)
  }

  function Get(o: KeyOps, t: Table, k: Key): Option<Value>
    requires |t.rows| > 0
  {
    match Lookup(o, t, k) case Some(x) => Some(x.value) case None => None
  }

  function InsertAt(o: KeyOps, t: Table, k: Key, v: Value): (r: (Table, int))
    requires |t.rows| > 0
    ensures |r.0.rows| == |t.rows|
  {
    var b := Home(o, |t.rows|, k);
    var s := t.rows[b].slots;
    var (bucket, inc) := InsertInto(o, t.rows[b], k, v);
    var i := FindOwn(o, s, k);
    (Table(t.rows[b := bucket], t.size + inc, t.released + (if i < |s| then [s[i]] else [])), inc)
  }

  /** The part of a list of entries that a table of n buckets keeps in bucket b. */
  function Share(o: KeyOps, n: nat, b: nat, es: seq<Slot>): (r: seq<Slot>)
    requires n > 0
  {
    if es == [] then []
    else
      var x := es[|es| - 1];
      Share(o, n, b, es[..|es| - 1]) + (if Home(o, n, x.key) == b then [x] else [])
  }

  function Gathered(f: seq<Slot>): Bucket {
    Bucket(if f == [] then [VACANT] else f, -1)
  }

  function Spread(o: KeyOps, n: nat, es: seq<Slot>): seq<Bucket>
    requires n > 0
  {
    seq(n, b requires 0 <= b < n => Gathered(Share(o, n, b, es)))
  }

  /** Every chain is finite. */
  predicate Straight(t: Table) {
    forall b :: 0 <= b < |t.rows| ==> t.rows[b].back == -1
  }

  /** The table a successful resize leaves. */
  function Resize(o: KeyOps, t: Table): (r: Table)
    requires |t.rows| > 0 && Straight(t)
    ensures |r.rows| == INCREASE_FACTOR * |t.rows|
  {
    var es := Entries(t.rows);
    Table(Spread(o, INCREASE_FACTOR * |t.rows|, es), |es|, t.released)
  }

  /** The first bucket whose chain is a circle. */
  function FirstCircle(rows: seq<Bucket>, from: nat := 0): (c: nat)
    requires from <= |rows|
    ensures from <= c <= |rows|
    ensures forall b :: from <= b < c ==> rows[b].back == -1
    ensures c < |rows| ==> rows[c].back != -1
    decreases |rows| - from
  {
    if from == |rows| || rows[from].back != -1 then from else FirstCircle(rows, from + 1)
  }

  /** The first entry of a chain from place `from` on: the one a second lap meets first, from `back` on. */
  function FirstOccupied(s: seq<Slot>, from: nat): (i: nat)
    requires from <= |s|
    ensures from <= i <= |s|
    ensures forall j :: from <= j < i ==> !s[j].occ
    ensures i < |s| ==> s[i].occ
    decreases |s| - from
  {
    if from == |s| || s[from].occ then from else FirstOccupied(s, from + 1)
  }

  /** The entry of a circular chain that a walk over the chain meets twice before any other. */
  function Repeated(r: Bucket): (i: nat)
    requires 0 <= r.back < |r.slots|
    ensures r.back <= i <= |r.slots|
  {
    FirstOccupied(r.slots, r.back)
  }

  /** A resize comes to an end: there is no circle, or the first one holds an entry. */
  predicate ResizeEnds(rows: seq<Bucket>) {
    var c := FirstCircle(rows);
    c < |rows| ==> 0 <= rows[c].back < |rows[c].slots| && Repeated(rows[c]) < |rows[c].slots|
  }

  /** The entry that a resize stopped by a circle meets again. */
  function Twice(rows: seq<Bucket>): Slot
    requires FirstCircle(rows) < |rows| && ResizeEnds(rows)
  {
    var r := rows[FirstCircle(rows)];
    r.slots[Repeated(r)]
  }

  /** The entries a resize moves before it fails: all up to the end of the first circular chain. */
  function MovedFirst(rows: seq<Bucket>): seq<Slot> {
    var c := FirstCircle(rows);
    if c == |rows| then Entries(rows) else Entries(rows[..c + 1])
  }

  /** What a resize that fails on a circle leaves: the old table, and destructors called on the entry met
      again and on every entry moved so far. */
  function ResizeFailed(o: KeyOps, t: Table): (r: Table)
    requires |t.rows| > 0 && !Straight(t) && ResizeEnds(t.rows)
  {
    StraightExactly(t.rows);
    t.(released := t.released + [Twice(t.rows)]
                   + Entries(Spread(o, INCREASE_FACTOR * |t.rows|, MovedFirst(t.rows))))
  }

  predicate Full(t: Table) {
    t.size >= NextSize(|t.rows|)
  }

  /** The table `put` inserts into: resized first when the load limit is reached. */
  function Roomy(o: KeyOps, t: Table): (r: Table)
    requires |t.rows| > 0
    ensures |r.rows| > 0
  {
    if Full(t) && Straight(t) then Resize(o, t) else t
  }

  /** A full table with a circle is not resized, and the put is refused. */
  predicate PutRefused(t: Table) {
    Full(t) && !Straight(t)
  }

  /** A put comes to an end: so does the resize it begins with, or else the walk of the insertion. */
  predicate PutEnds(o: KeyOps, t: Table, k: Key)
    requires |t.rows| > 0
  {
    if PutRefused(t) then ResizeEnds(t.rows)
    else
      var r := Roomy(o, t);
      var b := r.rows[Home(o, |r.rows|, k)];
      b.back == -1 || FindOwn(o, b.slots, k) < |b.slots|
  }

  /** For a put that comes to an end: the table it leaves, and its answer. */
  function Put(o: KeyOps, t: Table, k: Key, v: Value): (Table, bool)
    requires |t.rows| > 0
  {
    if PutRefused(t) then (if ResizeEnds(t.rows) then ResizeFailed(o, t) else t, false)
    else
      var (t', inc) := InsertAt(o, Roomy(o, t), k, v);
      (t', inc > 0)
  }

  /** `remove` runs the destructors (`nuke`), `steal` does not. */
  function Remove(o: KeyOps, t: Table, k: Key, nuke: bool): (Table, bool)
    requires |t.rows| > 0
  {
    var b := Home(o, |t.rows|, k);
    var s := t.rows[b].slots;
    var i := FirstMatch(o, s, k);
    if i == |s| then (t, false)
    else
      (Table(t.rows[b := t.rows[b].(slots := s[i := VACANT])], t.size - 1,
             t.released + (if nuke then [s[i]] else [])), true)
  }

  // ---- Invariant ----

  function Pow4(k: nat): nat { if k == 0 then 1 else 4 * Pow4(k - 1) }

  /** Occupied slots sit in the bucket their hash selects; the others are blank. */
  predicate SlotOk(o: KeyOps, n: nat, b: nat, x: Slot)
    requires n > 0
  {
    if x.occ then x.key.Key? && Home(o, n, x.key) == b else x == VACANT
  }

  predicate RowOk(o: KeyOps, n: nat, b: nat, r: Bucket)
    requires n > 0
  {
    Shaped(r) && forall i :: 0 <= i < |r.slots| ==> SlotOk(o, n, b, r.slots[i])
  }

  /** Each address is stored once. */
  ghost predicate Separate(m: multiset<Slot>) {
    && (forall x :: x in m ==> m[x] == 1 && x.key.Key?)
    && (forall x, y :: x in m && y in m && x.key.Key? && y.key.Key? && x.key.addr == y.key.addr ==> x == y)
  }

  /** The bucket counts that resizing can produce. */
  ghost predicate Grown(n: nat) {
    n > 0 && exists k: nat :: n == INITIAL_SIZE * Pow4(k)
  }

  predicate RowsOk(o: KeyOps, n: nat, rows: seq<Bucket>)
    requires n > 0
  {
    forall b :: 0 <= b < |rows| ==> RowOk(o, n, b, rows[b])
  }

  ghost predicate Inv(o: KeyOps, t: Table) {
    && Grown(|t.rows|)
    && RowsOk(o, |t.rows|, t.rows)
    && Separate(Bag(t))
    && t.size == |Bag(t)| <= NextSize(|t.rows|)
  }

  /** One address has one text as long as it is stored. */
  ghost predicate Coherent(t: Table, k: Key) {
    k.Key? && forall x :: x in Bag(t) && x.key.Key? && x.key.addr == k.addr ==> x.key == k
  }

  // ---- Lists of entries ----

  lemma {:induction false} EntriesSplit(rows: seq<Bucket>)
    requires rows != []
    ensures multiset(Entries(rows)) ==
            multiset(Entries(rows[..|rows| - 1])) + multiset(Occupied(rows[|rows| - 1].slots))
  {
  }

  lemma {:induction false} Shift<T>(a: multiset<T>, a': multiset<T>, x: multiset<T>, y: multiset<T>, z: multiset<T>)
    requires a' + x == a + y
    ensures (a' + z) + x == (a + z) + y
  {
    assert (a' + z) + x == (a' + x) + z;
  }

  lemma {:induction false} Swap<T>(a: multiset<T>, x: multiset<T>, y: multiset<T>)
    ensures (a + x) + y == (a + y) + x
  {
  }

  /** Replacing one bucket, as a change of the entries of the whole table. */
  lemma {:induction false} EntriesUpdate(rows: seq<Bucket>, b: nat, r: Bucket)
    requires b < |rows|
    ensures multiset(Entries(rows[b := r])) + multiset(Occupied(rows[b].slots)) ==
            multiset(Entries(rows)) + multiset(Occupied(r.slots))
  {
    var n, rows' := |rows| - 1, rows[b := r];
    EntriesSplit(rows);
    EntriesSplit(rows');
    if b == n {
      assert rows'[..n] == rows[..n];
      Swap(multiset(Entries(rows[..n])), multiset(Occupied(rows[n].slots)), multiset(Occupied(r.slots)));
    } else {
      EntriesUpdate(rows[..n], b, r);
      assert rows'[..n] == rows[..n][b := r];
      assert rows'[n] == rows[n] && rows[..n][b] == rows[b];
      Shift(multiset(Entries(rows[..n])), multiset(Entries(rows'[..n])), multiset(Occupied(rows[b].slots)),
            multiset(Occupied(r.slots)), multiset(Occupied(rows[n].slots)));
    }
  }

  /** What one bucket holds is part of what the table holds. */
  lemma {:induction false} EntriesRow(rows: seq<Bucket>, b: nat)
    requires b < |rows|
    ensures multiset(Occupied(rows[b].slots)) <= multiset(Entries(rows))
  {
    var r := Bucket([], -1);
    EntriesUpdate(rows, b, r);
    assert multiset(Entries(rows)) == multiset(Entries(rows[b := r])) + multiset(Occupied(rows[b].slots));
  }

  lemma {:induction false} EntriesMember(rows: seq<Bucket>, x: Slot) returns (b: nat)
    requires x in Entries(rows)
    ensures b < |rows| && x in rows[b].slots && x.occ
  {
    var n := |rows| - 1;
    if x in Occupied(rows[n].slots) {
      OccupiedMember(rows[n].slots, x);
      b := n;
    } else {
      b := EntriesMember(rows[..n], x);
    }
  }

  /** An entry is in the table iff it is in the bucket its hash selects. */
  lemma {:induction false} InBagIffHome(o: KeyOps, t: Table, x: Slot)
    requires Inv(o, t) && x.occ
    ensures x in Bag(t) <==> x.key.Key? && x in t.rows[Home(o, |t.rows|, x.key)].slots
  {
    if x in Bag(t) {
      var b := EntriesMember(t.rows, x);
      assert RowOk(o, |t.rows|, b, t.rows[b]);
    }
    var h := Home(o, |t.rows|, x.key);
    if x in t.rows[h].slots {
      OccupiedMember(t.rows[h].slots, x);
      EntriesRow(t.rows, h);
      assert x in multiset(Occupied(t.rows[h].slots));
      assert RowOk(o, |t.rows|, h, t.rows[h]);
    }
  }

  lemma {:induction false} TwiceInOccupied(s: seq<Slot>, i: nat, j: nat)
    requires i < j < |s| && s[i].occ && s[j] == s[i]
    ensures multiset(Occupied(s))[s[i]] >= 2
  {
    var n := |s| - 1;
    assert s == s[..n] + [s[n]];
    if j < n {
      TwiceInOccupied(s[..n], i, j);
    } else {
      OccupiedMember(s[..n], s[i]);
      assert s[..n][i] == s[i];
      assert s[i] in multiset(Occupied(s[..n]));
    }
  }

  /** In one chain an address occurs once. */
  lemma {:induction false} RowDistinct(o: KeyOps, t: Table, b: nat)
    requires Inv(o, t) && b < |t.rows|
    ensures AddrDistinct(t.rows[b].slots)
  {
    var s := t.rows[b].slots;
    EntriesRow(t.rows, b);
    forall i, j | 0 <= i < j < |s| && s[i].occ && s[j].occ && s[i].key.Key? && s[j].key.Key?
      ensures s[i].key.addr != s[j].key.addr
    {
      if s[i].key.addr == s[j].key.addr {
        OccupiedMember(s, s[i]);
        OccupiedMember(s, s[j]);
        assert s[i] in multiset(Occupied(s)) && s[j] in multiset(Occupied(s));
        TwiceInOccupied(s, i, j);
        assert false;
      }
    }
  }

  lemma {:induction false} StraightExactly(rows: seq<Bucket>)
    ensures FirstCircle(rows) == |rows| <==> forall b :: 0 <= b < |rows| ==> rows[b].back == -1
  {
  }

  // ---- Walking the buckets in order ----

  /** The occupied slots of bucket b come right after those of the buckets before it. */
  lemma {:induction false} EntriesSlice(rows: seq<Bucket>, b: nat)
    requires b < |rows|
    ensures var es, n := Entries(rows), |Entries(rows[..b])|;
            && Entries(rows[..b + 1]) == Entries(rows[..b]) + Occupied(rows[b].slots)
            && Entries(rows[..b + 1]) <= es && n <= |es| && Occupied(rows[b].slots) <= es[n..]
  {
    assert rows[..b + 1][..b] == rows[..b];
    if b == |rows| - 1 {
      assert rows[..b + 1] == rows;
    } else {
      var r := rows[..|rows| - 1];
      EntriesSlice(r, b);
      assert r[..b] == rows[..b] && r[..b + 1] == rows[..b + 1];
      assert Entries(rows) == Entries(r) + Occupied(rows[|rows| - 1].slots);
    }
  }

  lemma {:induction false} EntriesNone(rows: seq<Bucket>)
    ensures Entries(rows[..0]) == []
  {
  }

  lemma {:induction false} CountNext(s: seq<Slot>, j: nat)
    requires j < |s|
    ensures |Occupied(s[..j + 1])| == |Occupied(s[..j])| + if s[j].occ then 1 else 0
  {
    OccupiedAppend(s[..j], s[j]);
    assert s[..j + 1] == s[..j] + [s[j]];
  }

  /** The entry under the cursor is the next one of the list. */
  lemma {:induction false} NextEntry(s: seq<Slot>, j: nat, es: seq<Slot>, n: nat)
    requires j < |s| && s[j].occ && n <= |es| && Occupied(s) <= es[n..]
    ensures n + |Occupied(s[..j])| < |es| && es[n + |Occupied(s[..j])|] == s[j]
  {
    OccupiedConcat(s[..j + 1], s[j + 1..]);
    assert s == s[..j + 1] + s[j + 1..];
    assert s[..j + 1] == s[..j] + [s[j]];
    OccupiedAppend(s[..j], s[j]);
    var p, x := |Occupied(s[..j])|, s[j];
    assert Occupied(s)[p] == x;
    assert es[n..][p] == x;
  }

  /** Once a chain was walked its entries are among those of the list so far. */
  lemma {:induction false} WalkedEntry(s: seq<Slot>, j: nat, es: seq<Slot>, n: nat)
    requires j < |s| && s[j].occ && n <= |es| && Occupied(s) <= es[n..]
    ensures n + |Occupied(s)| <= |es| && s[j] in es[..n + |Occupied(s)|]
  {
    OccupiedMember(s, s[j]);
    var i :| 0 <= i < |Occupied(s)| && Occupied(s)[i] == s[j];
    assert es[n..][i] == s[j];
    assert es[..n + |Occupied(s)|][n + i] == s[j];
  }

  lemma {:induction false} OccupiedNone(s: seq<Slot>)
    ensures Occupied(s[..0]) == []
  {
  }

  // ---- Resize ----

  lemma {:induction false} ShareAppend(o: KeyOps, n: nat, b: nat, es: seq<Slot>, x: Slot)
    requires n > 0
    ensures Share(o, n, b, es + [x]) == Share(o, n, b, es) + (if Home(o, n, x.key) == b then [x] else [])
  {
    assert (es + [x])[..|es|] == es;
  }

  lemma {:induction false} ShareMember(o: KeyOps, n: nat, b: nat, es: seq<Slot>, x: Slot)
    requires n > 0
    ensures x in Share(o, n, b, es) <==> x in es && Home(o, n, x.key) == b
  {
    if es != [] {
      ShareMember(o, n, b, es[..|es| - 1], x);
      assert es == es[..|es| - 1] + [es[|es| - 1]];
    }
  }

  /** An entry that can be moved: occupied, and its address is not among those already moved. */
  ghost predicate Movable(es: seq<Slot>, x: Slot) {
    x.occ && x.key.Key? && forall y :: y in es ==> y.occ && y.key.Key? && y.key.addr != x.key.addr
  }

  /** Inserting a new address into a chain without tombstones appends it, or fills the blank head. */
  lemma {:induction false} InsertGathered(o: KeyOps, f: seq<Slot>, k: Key, v: Value)
    requires forall i :: 0 <= i < |f| ==> f[i].occ && !Own(o, f[i], k)
    ensures Insert(o, Gathered(f).slots, k, v) == (Gathered(f + [Slot(true, k, v)]), 1)
    ensures FindOwn(o, Gathered(f).slots, k) == |Gathered(f).slots|
  {
    var s := Gathered(f).slots;
    assert FindOwn(o, s, k) == |s|;
    if f == [] {
      assert s[0 := Slot(true, k, v)] == [] + [Slot(true, k, v)];
    } else {
      assert LastTomb(s) == -1;
    }
  }

  /** Only one bucket differs when one more entry is spread. */
  lemma {:induction false} SpreadAppend(o: KeyOps, n: nat, es: seq<Slot>, x: Slot)
    requires n > 0
    ensures var b := Home(o, n, x.key);
            Spread(o, n, es + [x]) == Spread(o, n, es)[b := Gathered(Share(o, n, b, es) + [x])]
  {
    var b, rows, rows' := Home(o, n, x.key), Spread(o, n, es), Spread(o, n, es + [x]);
    forall c | 0 <= c < n
      ensures rows'[c] == if c == b then Gathered(Share(o, n, b, es) + [x]) else rows[c]
    {
      ShareAppend(o, n, c, es, x);
    }
  }

  /** Moving the next entry into the new buckets: never a replacement, never a cycle. */
  lemma {:induction false} SpreadInsert(o: KeyOps, n: nat, es: seq<Slot>, x: Slot)
    requires n > 0 && Movable(es, x)
    ensures var b, rows := Home(o, n, x.key), Spread(o, n, es);
            && Insert(o, rows[b].slots, x.key, x.value).1 == 1
            && Spread(o, n, es + [x]) == rows[b := Insert(o, rows[b].slots, x.key, x.value).0]
            && FindOwn(o, rows[b].slots, x.key) == |rows[b].slots|
  {
    var b := Home(o, n, x.key);
    var f := Share(o, n, b, es);
    forall i | 0 <= i < |f| ensures f[i].occ && !Own(o, f[i], x.key) {
      ShareMember(o, n, b, es, f[i]);
    }
    InsertGathered(o, f, x.key, x.value);
    SpreadAppend(o, n, es, x);
  }

  /** Moving an entry that was moved before: it is found, replaced by itself, and not added. */
  lemma {:induction false} SpreadAgain(o: KeyOps, n: nat, es: seq<Slot>, x: Slot)
    requires Lawful(o) && n > 0 && x in es && (forall y :: y in es ==> y.occ) && Separate(multiset(es))
    ensures var row := Spread(o, n, es)[Home(o, n, x.key)]; var own := FindOwn(o, row.slots, x.key);
            && x.key.Key? && own < |row.slots| && row.slots[own] == x
            && InsertInto(o, row, x.key, x.value) == (row, 0)
  {
    var b := Home(o, n, x.key);
    var f := Share(o, n, b, es);
    assert x in multiset(es);
    ShareMember(o, n, b, es, x);
    var j :| 0 <= j < |f| && f[j] == x;
    assert Own(o, f[j], x.key);
    var own := FindOwn(o, f, x.key);
    ShareMember(o, n, b, es, f[own]);
    assert f[own] in multiset(es);
    assert f[own := x] == f;
  }

  lemma {:induction false} NoEntries(rows: seq<Bucket>)
    requires forall b :: 0 <= b < |rows| ==> rows[b].slots == [VACANT]
    ensures Entries(rows) == []
  {
    if rows != [] { NoEntries(rows[..|rows| - 1]); }
  }

  /** Nothing is lost or duplicated by moving entries one by one. */
  lemma {:induction false} SpreadBag(o: KeyOps, n: nat, es: seq<Slot>)
    requires n > 0 && (forall x :: x in es ==> x.occ) && Separate(multiset(es))
    ensures multiset(Entries(Spread(o, n, es))) == multiset(es)
  {
    if es == [] {
      NoEntries(Spread(o, n, es));
    } else {
      var u, x := es[..|es| - 1], es[|es| - 1];
      assert es == u + [x];
      SeparatePrefix(u, x);
      SpreadBag(o, n, u);
      SpreadStep(o, n, u, x);
    }
  }

  lemma {:induction false} SpreadStep(o: KeyOps, n: nat, u: seq<Slot>, x: Slot)
    requires n > 0 && Movable(u, x) && multiset(Entries(Spread(o, n, u))) == multiset(u)
    ensures multiset(Entries(Spread(o, n, u + [x]))) == multiset(u) + multiset{x}
  {
    var b, rows := Home(o, n, x.key), Spread(o, n, u);
    var f := Share(o, n, b, u);
    SpreadAppend(o, n, u, x);
    EntriesUpdate(rows, b, Gathered(f + [x]));
    GatheredOccupied(o, n, b, u);
    GatheredOccupied(o, n, b, u + [x]);
    ShareAppend(o, n, b, u, x);
    assert multiset(Entries(Spread(o, n, u + [x]))) + multiset(f) == multiset(u) + (multiset(f) + multiset{x}) by {
      assert Occupied(rows[b].slots) == f;
      assert Occupied(Gathered(f + [x]).slots) == f + [x];
    }
    Cancel(multiset(Entries(Spread(o, n, u + [x]))), multiset(f), multiset(u), multiset{x});
  }

  lemma {:induction false} Cancel<T>(a: multiset<T>, x: multiset<T>, u: multiset<T>, y: multiset<T>)
    requires a + x == u + (x + y)
    ensures a == u + y
  {
    assert forall e :: a[e] + x[e] == (a + x)[e];
  }

  lemma {:induction false} SeparatePrefix(u: seq<Slot>, x: Slot)
    requires Separate(multiset(u + [x])) && x.occ && forall y :: y in u ==> y.occ
    ensures Separate(multiset(u)) && Movable(u, x)
  {
    var m := multiset(u + [x]);
    assert m == multiset(u) + multiset{x};
    assert forall y :: y in multiset(u) ==> y in m;
    forall y | y in u ensures y.occ && y.key.Key? && y.key.addr != x.key.addr {
      assert y in m && x in m;
    }
  }

  lemma {:induction false} OccupiedAll(s: seq<Slot>)
    requires forall x :: x in s ==> x.occ
    ensures Occupied(s) == s
  {
    if s != [] {
      OccupiedAll(s[..|s| - 1]);
      assert s == s[..|s| - 1] + [s[|s| - 1]];
    }
  }

  lemma {:induction false} GatheredOccupied(o: KeyOps, n: nat, b: nat, es: seq<Slot>)
    requires n > 0 && forall x :: x in es ==> x.occ
    ensures Occupied(Gathered(Share(o, n, b, es)).slots) == Share(o, n, b, es)
  {
    var f := Share(o, n, b, es);
    forall x | x in f ensures x.occ { ShareMember(o, n, b, es, x); }
    OccupiedAll(f);
  }
}
