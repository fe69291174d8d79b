/** What every operation keeps and what it does to lookups and to the stored entries. */
module Refinement {
  import opened Keys
  import opened Chains
  import opened Tables

  // ---- Resize ----

  /** h % (c * n) determines h % n. */
  lemma {:induction false} ModModulus(h: nat, c: nat, n: nat)
    requires c > 0 && n > 0
    ensures h % (c * n) % n == h % n
  {
    var q, r := h / (c * n), h % (c * n);
    assert h == n * (c * q) + r by { assert (c * n) * q == n * (c * q); }
    ModPlus(r, n, c * q);
  }

  lemma {:induction false} ModPlus(r: nat, n: nat, q: nat)
    requires n > 0
    ensures (n * q + r) % n == r % n
  {
    var a, b := r / n, r % n;
    assert n * q + r == n * (q + a) + b;
    DivUnique(n * q + r, n, q + a, b);
  }

  lemma {:induction false} DivUnique(x: nat, n: nat, q: nat, r: nat)
    requires n > 0 && x == n * q + r && r < n
    ensures x % n == r
  {
    var q', r' := x / n, x % n;
    assert n * q' + r' == n * q + r;
    if q' > q { MulGap(n, q, q'); }
    if q' < q { MulGap(n, q', q); }
  }

  lemma {:induction false} MulGap(n: nat, a: nat, b: nat)
    requires a < b
    ensures n * a + n <= n * b
  {
    assert n * b == n * (b - 1) + n;
    if a < b - 1 { MulGap(n, a, b - 1); }
  }

  lemma {:induction false} ShareNone(o: KeyOps, n: nat, b: nat, es: seq<Slot>)
    requires n > 0 && forall x :: x in es ==> Home(o, n, x.key) != b
    ensures Share(o, n, b, es) == []
  {
    if es != [] { ShareNone(o, n, b, es[..|es| - 1]); }
  }

  lemma {:induction false} ShareConcat(o: KeyOps, n: nat, b: nat, s: seq<Slot>, t: seq<Slot>)
    requires n > 0
    ensures Share(o, n, b, s + t) == Share(o, n, b, s) + Share(o, n, b, t)
  {
    if t == [] {
      assert s + t == s;
    } else {
      var u, x := t[..|t| - 1], t[|t| - 1];
      ShareConcat(o, n, b, s, u);
      ShareAppend(o, n, b, s + u, x);
      ShareAppend(o, n, b, u, x);
      assert t == u + [x] && s + t == (s + u) + [x];
    }
  }

  /** The new bucket b draws on one old bucket only, b % n. */
  lemma {:induction false} ShareOfEntries(o: KeyOps, n: nat, c: nat, b: nat, rows: seq<Bucket>)
    requires n > 0 && c > 0 && b < c * n
    requires RowsOk(o, n, rows)
    requires |rows| <= n
    ensures Share(o, c * n, b, Entries(rows)) ==
            if b % n < |rows| then Share(o, c * n, b, Occupied(rows[b % n].slots)) else []
  {
    if rows != [] {
      var m := |rows| - 1;
      var last := Occupied(rows[m].slots);
      ShareOfEntries(o, n, c, b, rows[..m]);
      ShareConcat(o, c * n, b, Entries(rows[..m]), last);
      if b % n != m {
        forall x | x in last ensures Home(o, c * n, x.key) != b {
          OccupiedMember(rows[m].slots, x);
          assert RowOk(o, n, m, rows[m]);
          ModModulus(o.hash(x.key), c, n);
        }
        ShareNone(o, c * n, b, last);
      }
    }
  }

  /** Resizing, bucket by bucket: new bucket b is the occupied part of old bucket b % n whose hash
      selects b among 4n, in the same order; a blank head when that is empty. */
  lemma {:induction false} ResizeRow(o: KeyOps, t: Table, b: nat)
    requires Inv(o, t) && Straight(t) && b < INCREASE_FACTOR * |t.rows|
    ensures b % |t.rows| < |t.rows|
    ensures Resize(o, t).rows[b] ==
            Gathered(Share(o, INCREASE_FACTOR * |t.rows|, b, Occupied(t.rows[b % |t.rows|].slots)))
  {
    ShareOfEntries(o, |t.rows|, INCREASE_FACTOR, b, t.rows);
  }

  lemma {:induction false} FoundOccupied(o: KeyOps, s: seq<Slot>, k: Key)
    requires forall i :: 0 <= i < |s| ==> s[i].occ || !o.compare(s[i].key, k)
    ensures Found(o, Occupied(s), k) == Found(o, s, k)
  {
    if s != [] {
      var u, x := s[..|s| - 1], s[|s| - 1];
      FoundOccupied(o, u, k);
      assert s == u + [x];
      FoundAppend(o, u, x, k);
      OccupiedAppend(u, x);
      if x.occ { FoundAppend(o, Occupied(u), x, k); } else { assert Occupied(u) + [] == Occupied(u); }
    }
  }

  lemma {:induction false} FoundShare(o: KeyOps, n: nat, es: seq<Slot>, k: Key)
    requires Lawful(o) && n > 0
    ensures Found(o, Share(o, n, Home(o, n, k), es), k) == Found(o, es, k)
  {
    if es != [] {
      var b, u, x := Home(o, n, k), es[..|es| - 1], es[|es| - 1];
      FoundShare(o, n, u, k);
      assert es == u + [x];
      FoundAppend(o, u, x, k);
      ShareAppend(o, n, b, u, x);
      var f := Share(o, n, b, u);
      if Home(o, n, x.key) == b { FoundAppend(o, f, x, k); } else { assert f + [] == f; }
    }
  }

  lemma {:induction false} FoundGathered(o: KeyOps, f: seq<Slot>, k: Key)
    requires Lawful(o) && k.Key?
    ensures Found(o, Gathered(f).slots, k) == Found(o, f, k)
  {
  }

  /** Every lookup finds the same entry before and after a resize, content-equal keys included. */
  lemma {:induction false} ResizeKeepsLookups(o: KeyOps, t: Table, k: Key)
    requires Lawful(o) && Inv(o, t) && Straight(t) && k.Key?
    ensures Lookup(o, Resize(o, t), k) == Lookup(o, t, k)
  {
    var n := |t.rows|;
    var b, h := Home(o, INCREASE_FACTOR * n, k), Home(o, n, k);
    ModModulus(o.hash(k), INCREASE_FACTOR, n);
    ResizeRow(o, t, b);
    var s := t.rows[h].slots;
    assert RowOk(o, n, h, t.rows[h]);
    FoundOccupied(o, s, k);
    FoundShare(o, INCREASE_FACTOR * n, Occupied(s), k);
    FoundGathered(o, Share(o, INCREASE_FACTOR * n, b, Occupied(s)), k);
  }

  lemma {:induction false} EntriesOccupied(rows: seq<Bucket>, x: Slot)
    requires x in Entries(rows)
    ensures x.occ
  {
    var b := EntriesMember(rows, x);
  }

  /** Resizing keeps the entries, their number and the invariant, and leaves only finite chains. */
  lemma {:induction false} ResizeKeeps(o: KeyOps, t: Table)
    requires Lawful(o) && Inv(o, t) && Straight(t)
    ensures Inv(o, Resize(o, t)) && Straight(Resize(o, t))
    ensures Bag(Resize(o, t)) == Bag(t) && Resize(o, t).size == t.size
    ensures Resize(o, t).size < NextSize(|Resize(o, t).rows|)
  {
    hide Separate, Entries, RowsOk, Grown, Share;
    var es, n := Entries(t.rows), INCREASE_FACTOR * |t.rows|;
    GrownPositive(|t.rows|);
    EntriesProper(o, t);
    SpreadBag(o, n, es);
    SpreadOk(o, n, es);
    GrownStep(|t.rows|);
  }

  lemma {:induction false} EntriesProper(o: KeyOps, t: Table)
    requires Inv(o, t)
    ensures forall x :: x in Entries(t.rows) ==> x.occ && x.key.Key?
  {
    forall x | x in Entries(t.rows) ensures x.occ && x.key.Key? {
      EntriesOccupied(t.rows, x);
      assert x in multiset(Entries(t.rows));
    }
  }

  lemma {:induction false} GrownPositive(n: nat)
    requires Grown(n)
    ensures n >= 61
  {
    var k: nat :| n == INITIAL_SIZE * Pow4(k);
    Pow4Positive(k);
  }

  lemma {:induction false} Pow4Positive(k: nat)
    ensures Pow4(k) >= 1
  {
    if k > 0 { Pow4Positive(k - 1); }
  }

  lemma {:induction false} SpreadOk(o: KeyOps, n: nat, es: seq<Slot>)
    requires n > 0 && forall x :: x in es ==> x.occ && x.key.Key?
    ensures RowsOk(o, n, Spread(o, n, es))
  {
    forall b | 0 <= b < n ensures RowOk(o, n, b, Gathered(Share(o, n, b, es))) {
      var f := Share(o, n, b, es);
      forall i | 0 <= i < |f| ensures SlotOk(o, n, b, f[i]) {
        ShareMember(o, n, b, es, f[i]);
      }
    }
  }

  lemma {:induction false} GrownStep(n: nat)
    requires Grown(n)
    ensures Grown(INCREASE_FACTOR * n)
  {
    var k: nat :| n == INITIAL_SIZE * Pow4(k);
    assert INCREASE_FACTOR * n == INITIAL_SIZE * Pow4(k + 1);
  }

  // ---- Insert ----

  /** Whether the key's own address is stored, and where. */
  lemma {:induction false} OwnIffStored(o: KeyOps, t: Table, k: Key)
    requires Lawful(o) && Inv(o, t) && Coherent(t, k)
    ensures var s := t.rows[Home(o, |t.rows|, k)].slots; var i := FindOwn(o, s, k);
            && (i < |s| <==> exists x :: x in Bag(t) && x.key == k)
            && (i < |s| ==> s[i] in Bag(t) && s[i].key == k && s[i].occ)
  {
    var h := Home(o, |t.rows|, k);
    var s := t.rows[h].slots;
    var i := FindOwn(o, s, k);
    assert RowOk(o, |t.rows|, h, t.rows[h]);
    if i < |s| {
      assert SlotOk(o, |t.rows|, h, s[i]);
      InBagIffHome(o, t, s[i]);
      assert s[i] in s;
    }
    if x :| x in Bag(t) && x.key == k {
      EntriesOccupied(t.rows, x);
      InBagIffHome(o, t, x);
      var j :| 0 <= j < |s| && s[j] == x;
      assert Own(o, s[j], k);
    }
  }

  ghost predicate Replaced(t: Table, t': Table, x: Slot, y: Slot) {
    Bag(t') + multiset{y} == Bag(t) + multiset{x} && t'.released == t.released + [y]
  }

  /** The new entry, in place of the own entry if there is one, otherwise one more. */
  ghost predicate Inserted(o: KeyOps, t: Table, k: Key, v: Value, t': Table, inc: int) {
    var x := Slot(true, k, v);
    && |t'.rows| == |t.rows|
    && ((inc == 1 && (forall y :: y in Bag(t) ==> y.key != k)
         && Bag(t') == Bag(t) + multiset{x} && t'.released == t.released)
        || (inc == 0 && (exists y :: y in Bag(t) && y.key == k && Replaced(t, t', x, y))))
    && t'.size == t.size + inc
  }

  lemma {:induction false} InsertBag(o: KeyOps, t: Table, k: Key, v: Value)
    requires Lawful(o) && Inv(o, t) && Coherent(t, k) && |t.rows| > 0
    ensures var (t', inc) := InsertAt(o, t, k, v); Inserted(o, t, k, v, t', inc)
  {
    hide Insert, InsertInto, Inv, Coherent, Entries, Occupied, Lawful;
    var (t', inc) := InsertAt(o, t, k, v);
    IntoSlots(o, t.rows[Home(o, |t.rows|, k)], k, v);
    var x, h := Slot(true, k, v), Home(o, |t.rows|, k);
    var s := t.rows[h].slots;
    var i := FindOwn(o, s, k);
    OwnIffStored(o, t, k);
    InsertCount(o, s, k, v);
    InsertOccupied(o, s, k, v);
    RowBag(t.rows, h, t'.rows[h], if i < |s| then multiset{s[i]} else multiset{}, multiset{x});
    if i < |s| {
      assert Replaced(t, t', x, s[i]);
    } else {
      assert Bag(t') + multiset{} == Bag(t');
      assert t.released + [] == t.released;
    }
  }

  lemma {:induction false} InsertCount(o: KeyOps, s: seq<Slot>, k: Key, v: Value)
    ensures Insert(o, s, k, v).1 == if FindOwn(o, s, k) < |s| then 0 else 1
  {
  }

  /** Insertion into one chain, as multisets of occupied slots. */
  lemma {:induction false} InsertOccupied(o: KeyOps, s: seq<Slot>, k: Key, v: Value)
    ensures var x, i := Slot(true, k, v), FindOwn(o, s, k);
            multiset(Occupied(Insert(o, s, k, v).0.slots)) + (if i < |s| then multiset{s[i]} else multiset{})
            == multiset(Occupied(s)) + multiset{x}
  {
    var x, i, tomb := Slot(true, k, v), FindOwn(o, s, k), LastTomb(s);
    if i < |s| {
      OccupiedUpdate(s, i, x);
    } else if tomb >= 0 {
      OccupiedUpdate(s, tomb, x);
    } else {
      OccupiedAppend(s, x);
    }
  }

  /** A change to one bucket is the same change to the table. */
  lemma {:induction false} RowBag(rows: seq<Bucket>, h: nat, r: Bucket, y: multiset<Slot>, x: multiset<Slot>)
    requires h < |rows|
    requires multiset(Occupied(r.slots)) + y == multiset(Occupied(rows[h].slots)) + x
    ensures multiset(Entries(rows[h := r])) + y == multiset(Entries(rows)) + x
  {
    EntriesUpdate(rows, h, r);
    Exchange(multiset(Entries(rows[h := r])), multiset(Entries(rows)), multiset(Occupied(rows[h].slots)),
             multiset(Occupied(r.slots)), y, x);
  }

  lemma {:induction false} Exchange<T>(b': multiset<T>, b: multiset<T>, s: multiset<T>, s': multiset<T>,
                                          y: multiset<T>, x: multiset<T>)
    requires b' + s == b + s' && s' + y == s + x
    ensures b' + y == b + x
  {
    forall e ensures (b' + y)[e] == (b + x)[e] {
      assert (b' + s)[e] == (b + s')[e] && (s' + y)[e] == (s + x)[e];
    }
  }

  lemma {:induction false} InsertKeeps(o: KeyOps, t: Table, k: Key, v: Value)
    requires Lawful(o) && Inv(o, t) && Coherent(t, k) && t.size < NextSize(|t.rows|)
    ensures Inv(o, InsertAt(o, t, k, v).0)
  {
    hide Insert, InsertInto, Entries, Occupied, FindOwn;
    var (t', inc) := InsertAt(o, t, k, v);
    var h := Home(o, |t.rows|, k);
    InsertBag(o, t, k, v);
    InsertRowOk(o, |t.rows|, h, t.rows[h], k, v);
    RowsOkUpdate(o, |t.rows|, t.rows, h, t'.rows[h]);
    InsertSeparate(Bag(t), Bag(t'), k, v);
  }

  lemma {:induction false} InsertRowOk(o: KeyOps, n: nat, b: nat, r: Bucket, k: Key, v: Value)
    requires n > 0 && k.Key? && Home(o, n, k) == b && RowOk(o, n, b, r)
    ensures RowOk(o, n, b, InsertInto(o, r, k, v).0)
  {
  }

  lemma {:induction false} InsertSeparate(m: multiset<Slot>, m': multiset<Slot>, k: Key, v: Value)
    requires Separate(m) && k.Key? && forall x :: x in m && x.key.addr == k.addr ==> x.key == k
    requires (m' == m + multiset{Slot(true, k, v)} && (forall y :: y in m ==> y.key != k))
             || (exists y :: y in m && y.key == k && m' + multiset{y} == m + multiset{Slot(true, k, v)})
    ensures Separate(m')
    ensures |m'| == |m| + (if forall y :: y in m ==> y.key != k then 1 else 0)
  {
    var x := Slot(true, k, v);
    if m' == m + multiset{x} && (forall y :: y in m ==> y.key != k) {
    } else {
      var y :| y in m && y.key == k && m' + multiset{y} == m + multiset{x};
      forall e ensures m'[e] == m[e] - (if e == y then 1 else 0) + (if e == x then 1 else 0) {
        assert (m' + multiset{y})[e] == (m + multiset{x})[e];
      }
      assert |m' + multiset{y}| == |m + multiset{x}|;
    }
  }

  lemma {:induction false} RoomyKeeps(o: KeyOps, t: Table)
    requires Lawful(o) && Inv(o, t)
    ensures var r := Roomy(o, t);
            && Inv(o, r) && (Straight(t) ==> Straight(r))
            && Bag(r) == Bag(t) && r.size == t.size && r.released == t.released
            && (!PutRefused(t) ==> r.size < NextSize(|r.rows|))
  {
    if Full(t) && Straight(t) { ResizeKeeps(o, t); }
  }

  /** What `put` promises about the invariant and the stored entries: it is refused when the table is full and
      has a circle; otherwise it answers whether the key's address was not stored. */
  lemma {:induction false} PutKeeps(o: KeyOps, t: Table, k: Key, v: Value)
    requires Lawful(o) && Inv(o, t) && Coherent(t, k) && PutEnds(o, t, k)
    ensures var (t', added) := Put(o, t, k, v);
            && Inv(o, t')
            && (PutRefused(t) ==> !added && t'.rows == t.rows && t'.size == t.size)
            && (!PutRefused(t) ==>
                  && Inserted(o, t.(rows := Roomy(o, t).rows), k, v, t', if added then 1 else 0)
                  && (added <==> forall y :: y in Bag(t) ==> y.key != k)
                  && Bag(Roomy(o, t)) == Bag(t))
  {
    RoomyKeeps(o, t);
    var r := Roomy(o, t);
    if !PutRefused(t) {
      InsertKeeps(o, r, k, v);
      InsertBag(o, r, k, v);
    }
  }

  /** On finite chains every put comes to an end and none is refused. */
  lemma {:induction false} StraightPutEnds(o: KeyOps, t: Table, k: Key)
    requires Lawful(o) && Inv(o, t) && Straight(t)
    ensures PutEnds(o, t, k) && !PutRefused(t)
  {
    RoomyKeeps(o, t);
  }

  // ---- Remove ----

  /** Entry y, the one lookup finds for k, is gone; its destructors ran iff asked to. */
  ghost predicate Taken(o: KeyOps, t: Table, k: Key, nuke: bool, t': Table, y: Slot)
    requires |t.rows| > 0
  {
    && o.compare(y.key, k) && Get(o, t, k) == Some(y.value)
    && Bag(t') == Bag(t) - multiset{y}
    && t'.released == t.released + (if nuke then [y] else [])
  }

  lemma {:induction false} RemoveKeeps(o: KeyOps, t: Table, k: Key, nuke: bool)
    requires Lawful(o) && Inv(o, t) && k.Key?
    ensures var (t', found) := Remove(o, t, k, nuke);
            && Inv(o, t') && |t'.rows| == |t.rows|
            && (found <==> exists y :: y in Bag(t) && o.compare(y.key, k))
            && (!found ==> t' == t)
            && (found ==> exists y :: y in Bag(t) && Taken(o, t, k, nuke, t', y))
  {
    var (t', found) := Remove(o, t, k, nuke);
    if found {
      RemoveFound(o, t, k, nuke);
    } else if y :| y in Bag(t) && o.compare(y.key, k) {
      EntriesOccupied(t.rows, y);
      InBagIffHome(o, t, y);
      assert false;
    }
  }

  lemma {:induction false} RemoveFound(o: KeyOps, t: Table, k: Key, nuke: bool)
    requires Lawful(o) && Inv(o, t) && k.Key? && Remove(o, t, k, nuke).1
    ensures var t' := Remove(o, t, k, nuke).0;
            Inv(o, t') && exists y :: y in Bag(t) && Taken(o, t, k, nuke, t', y)
  {
    hide Separate, Entries, Grown;
    var t', n, h := Remove(o, t, k, nuke).0, |t.rows|, Home(o, |t.rows|, k);
    var s := t.rows[h].slots;
    var i := FirstMatch(o, s, k);
    assert RowOk(o, n, h, t.rows[h]) && SlotOk(o, n, h, s[i]);
    RemoveBag(o, t, h, i);
    RemoveRowOk(o, n, h, t.rows[h], i);
    RowsOkUpdate(o, n, t.rows, h, t.rows[h].(slots := s[i := VACANT]));
    assert Taken(o, t, k, nuke, t', s[i]);
  }

  lemma {:induction false} RowsOkUpdate(o: KeyOps, n: nat, rows: seq<Bucket>, h: nat, r: Bucket)
    requires n > 0 && h < |rows| && RowsOk(o, n, rows) && RowOk(o, n, h, r)
    ensures RowsOk(o, n, rows[h := r])
  {
  }

  lemma {:induction false} RemoveRowOk(o: KeyOps, n: nat, b: nat, r: Bucket, i: nat)
    requires n > 0 && i < |r.slots| && RowOk(o, n, b, r)
    ensures RowOk(o, n, b, r.(slots := r.slots[i := VACANT]))
  {
  }

  lemma {:induction false} RemoveBag(o: KeyOps, t: Table, h: nat, i: nat)
    requires Lawful(o) && Inv(o, t) && h < |t.rows| && i < |t.rows[h].slots| && t.rows[h].slots[i].occ
    ensures var s := t.rows[h].slots; var rows' := t.rows[h := t.rows[h].(slots := s[i := VACANT])];
            && s[i] in Bag(t)
            && Separate(multiset(Entries(rows')))
            && multiset(Entries(rows')) == Bag(t) - multiset{s[i]} && |Entries(rows')| == t.size - 1
  {
    var s := t.rows[h].slots;
    var rows' := t.rows[h := t.rows[h].(slots := s[i := VACANT])];
    var bag' := multiset(Entries(rows'));
    assert RowOk(o, |t.rows|, h, t.rows[h]) && SlotOk(o, |t.rows|, h, s[i]);
    InBagIffHome(o, t, s[i]);
    RowBag(t.rows, h, rows'[h], multiset{s[i]}, multiset{}) by { OccupiedUpdate(s, i, VACANT); }
    RemoveSeparate(Bag(t), bag', s[i]);
  }

  lemma {:induction false} RemoveSeparate(m: multiset<Slot>, m': multiset<Slot>, y: Slot)
    requires Separate(m) && y in m && m' + multiset{y} == m + multiset{}
    ensures Separate(m') && m' == m - multiset{y} && |m'| == |m| - 1
  {
    forall e ensures m'[e] == m[e] - (if e == y then 1 else 0) {
      assert (m' + multiset{y})[e] == (m + multiset{})[e];
    }
    assert |m' + multiset{y}| == |m'| + 1;
    assert m + multiset{} == m;
  }
}
