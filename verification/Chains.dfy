/** One bucket: an inline head plus the nodes linked behind it, as values.

    A finite chain is a non-empty sequence of slots. Insertion can link the last node back to an
    earlier one, so a bucket is a lasso: the slots in order, and where the last `next` points. */
module Chains {
  import opened Keys

  /** A `void *` value; 0 is the null pointer. */
  type Value = nat

  datatype Option<+T> = None | Some(value: T)

  /** One entry; `occ == false` is a tombstone or an untouched head. */
  datatype Slot = Slot(occ: bool, key: Key, value: Value)

  /** What calloc and removal leave behind. */
  const VACANT := Slot(false, Null, 0)

  /** `back` is -1 when the last slot's `next` is null, else the index it points back to. */
  datatype Bucket = Bucket(slots: seq<Slot>, back: int)

  // ---- Lookup: the first slot whose key compares equal, occupied or not ----

  function FirstMatch(o: KeyOps, s: seq<Slot>, k: Key, from: nat := 0): (i: nat)
    requires from <= |s|
    ensures from <= i <= |s|
    ensures forall j :: from <= j < i ==> !o.compare(s[j].key, k)
    ensures i < |s| ==> o.compare(s[i].key, k)
    decreases |s| - from
  {
    if from == |s| || o.compare(s[from].key, k) then from else FirstMatch(o, s, k, from + 1)
  }

  /** The slot a lookup finds. */
  function Found(o: KeyOps, s: seq<Slot>, k: Key): Option<Slot> {
    var i := FirstMatch(o, s, k);
    if i < |s| then Some(s[i]) else None
  }

  /** A chain that grows at its end answers from the old part first. */
  lemma {:induction false} FoundAppend(o: KeyOps, s: seq<Slot>, x: Slot, k: Key)
    ensures Found(o, s + [x], k) ==
            if Found(o, s, k).Some? then Found(o, s, k)
            else if o.compare(x.key, k) then Some(x) else None
  {
    var i, j := FirstMatch(o, s, k), FirstMatch(o, s + [x], k);
    assert (s + [x])[|s|] == x;
    assert forall n :: 0 <= n < |s| ==> (s + [x])[n] == s[n];
  }

  // ---- Insertion ----

  /** The entry insertion treats as "already there": same address first, then compare. */
  predicate Own(o: KeyOps, x: Slot, k: Key) {
    x.occ && x.key.Key? && k.Key? && x.key.addr == k.addr && o.compare(x.key, k)
  }

  function FindOwn(o: KeyOps, s: seq<Slot>, k: Key, from: nat := 0): (i: nat)
    requires from <= |s|
    ensures from <= i <= |s|
    ensures forall j :: from <= j < i ==> !Own(o, s[j], k)
    ensures i < |s| ==> Own(o, s[i], k)
    decreases |s| - from
  {
    if from == |s| || Own(o, s[from], k) then from else FindOwn(o, s, k, from + 1)
  }

  /** The last unoccupied slot, or -1. */
  function LastTomb(s: seq<Slot>): (t: int)
    ensures -1 <= t < |s|
    ensures t >= 0 ==> !s[t].occ
    ensures forall j :: t < j < |s| ==> s[j].occ
  {
    if s == [] then -1
    else if !s[|s| - 1].occ then |s| - 1
    else LastTomb(s[..|s| - 1])
  }

  /** The slot insertion writes: the key's own one, else the last unoccupied one, else a new one. */
  function Place(o: KeyOps, s: seq<Slot>, k: Key): (i: nat)
    ensures i <= |s|
  {
    var own, tomb := FindOwn(o, s, k), LastTomb(s);
    if own < |s| then own else if tomb >= 0 then tomb else |s|
  }

  /** `nc_hashmap_insert_bucket` on a finite chain: the bucket it leaves and 1 for an added entry,
      0 for a replaced one. */
  function Insert(o: KeyOps, s: seq<Slot>, k: Key, v: Value): (r: (Bucket, int)) {
    var own, tomb, x := FindOwn(o, s, k), LastTomb(s), Slot(true, k, v);
    if own < |s| then (Bucket(s[own := x], -1), 0)
    else if tomb >= 0 then (Bucket(s[tomb := x], if tomb == |s| - 1 then -1 else tomb), 1)
    else (Bucket(s + [x], -1), 1)
  }

  /** The same on any bucket in which the walk ends: the own slot of a circular chain can be replaced too. */
  function InsertInto(o: KeyOps, b: Bucket, k: Key, v: Value): (r: (Bucket, int))
    ensures b.back == -1 ==> r == Insert(o, b.slots, k, v)
  {
    var own := FindOwn(o, b.slots, k);
    if own < |b.slots| then (b.(slots := b.slots[own := Slot(true, k, v)]), 0) else Insert(o, b.slots, k, v)
  }

  /** What the two have in common on any bucket: the slots and the answer. */
  lemma {:induction false} IntoSlots(o: KeyOps, b: Bucket, k: Key, v: Value)
    ensures InsertInto(o, b, k, v).0.slots == Insert(o, b.slots, k, v).0.slots
    ensures InsertInto(o, b, k, v).1 == Insert(o, b.slots, k, v).1
  {
  }

  // ---- What following `next` from the head does ----

  /** A bucket that insertion can leave: the tail never points to itself. */
  predicate Shaped(b: Bucket) {
    |b.slots| > 0 && (b.back == -1 || 0 <= b.back < |b.slots| - 1)
  }

  /** The index `next` leads to; -1 is null. */
  function Next(b: Bucket, i: int): (j: int)
    requires Shaped(b) && -1 <= i < |b.slots|
    ensures -1 <= j < |b.slots|
  {
    if i == -1 then -1 else if i + 1 < |b.slots| then i + 1 else b.back
  }

  /** The node reached after n steps from the head. */
  function Walk(b: Bucket, n: nat): (i: int)
    requires Shaped(b)
    ensures -1 <= i < |b.slots|
  {
    if n == 0 then 0 else Next(b, Walk(b, n - 1))
  }

  /** The chain ends: some number of steps reaches the null pointer. */
  ghost predicate Finite(b: Bucket)
    requires Shaped(b)
  {
    exists n: nat :: Walk(b, n) == -1
  }

  /** The lookup loop is still running when it is about to inspect its n-th node. */
  predicate Searching(o: KeyOps, b: Bucket, k: Key, n: nat)
    requires Shaped(b)
  {
    Walk(b, n) != -1 && (n == 0 || (Searching(o, b, k, n - 1) && !o.compare(b.slots[Walk(b, n - 1)].key, k)))
  }

  /** The first |slots| steps visit the slots in order. */
  lemma {:induction false} WalkForward(b: Bucket, n: nat)
    requires Shaped(b) && n < |b.slots|
    ensures Walk(b, n) == n
  {
    if n > 0 { WalkForward(b, n - 1); }
  }

  lemma {:induction false} LassoNeverNull(b: Bucket, n: nat)
    requires Shaped(b) && b.back >= 0
    ensures Walk(b, n) >= 0
  {
    if n > 0 { LassoNeverNull(b, n - 1); }
  }

  /** A node that is still d steps before the end of the sequence is reached d steps later. */
  lemma {:induction false} WalkAhead(b: Bucket, n: nat, d: nat)
    requires Shaped(b) && 0 <= Walk(b, n) && Walk(b, n) + d < |b.slots|
    ensures Walk(b, n + d) == Walk(b, n) + d
  {
    if d > 0 { WalkAhead(b, n, d - 1); }
  }

  /** On a lasso the node the tail points to is visited again and again: after any number of steps. */
  lemma {:induction false} LassoReturns(b: Bucket, n: nat) returns (m: nat)
    requires Shaped(b) && b.back >= 0
    ensures m > n && Walk(b, m) == b.back
  {
    LassoNeverNull(b, n);
    var d := |b.slots| - 1 - Walk(b, n);
    WalkAhead(b, n, d);
    m := n + d + 1;
  }

  lemma {:induction false} FiniteIffNoBack(b: Bucket)
    requires Shaped(b)
    ensures Finite(b) <==> b.back == -1
  {
    if b.back == -1 {
      WalkForward(b, |b.slots| - 1);
      assert Walk(b, |b.slots|) == -1;
    } else {
      forall n: nat ensures Walk(b, n) != -1 { LassoNeverNull(b, n); }
    }
  }

  /** On a lasso, looking up a key that no slot matches is still searching after any number of steps. */
  lemma {:induction false} AbsentSearchNeverEnds(o: KeyOps, b: Bucket, k: Key, n: nat)
    requires Shaped(b) && b.back >= 0
    requires forall i :: 0 <= i < |b.slots| ==> !o.compare(b.slots[i].key, k)
    ensures Searching(o, b, k, n)
  {
    LassoNeverNull(b, n);
    if n > 0 {
      AbsentSearchNeverEnds(o, b, k, n - 1);
      LassoNeverNull(b, n - 1);
    }
  }

  /** The insertion loop is still running when it is about to inspect its n-th node. */
  predicate Inserting(o: KeyOps, b: Bucket, k: Key, n: nat)
    requires Shaped(b)
  {
    Walk(b, n) != -1 && (n == 0 || (Inserting(o, b, k, n - 1) && !Own(o, b.slots[Walk(b, n - 1)], k)))
  }

  /** On a lasso, the insertion of an address that is not stored there is still running after any number
      of steps. */
  lemma {:induction false} AbsentInsertNeverEnds(o: KeyOps, b: Bucket, k: Key, n: nat)
    requires Shaped(b) && b.back >= 0 && FindOwn(o, b.slots, k) == |b.slots|
    ensures Inserting(o, b, k, n)
  {
    LassoNeverNull(b, n);
    if n > 0 {
      AbsentInsertNeverEnds(o, b, k, n - 1);
      LassoNeverNull(b, n - 1);
    }
  }

  /** The insertion loop ends exactly on a finite chain or when it meets the key's own entry. */
  lemma {:induction false} InsertEndsExactly(o: KeyOps, b: Bucket, k: Key)
    requires Shaped(b)
    ensures (exists n: nat :: !Inserting(o, b, k, n)) <==> b.back == -1 || FindOwn(o, b.slots, k) < |b.slots|
  {
    hide Inserting;
    if b.back == -1 || FindOwn(o, b.slots, k) < |b.slots| {
      var n := InsertStops(o, b, k);
    } else {
      forall n: nat ensures Inserting(o, b, k, n) { AbsentInsertNeverEnds(o, b, k, n); }
    }
  }

  lemma {:induction false} InsertStops(o: KeyOps, b: Bucket, k: Key) returns (n: nat)
    requires Shaped(b) && (b.back == -1 || FindOwn(o, b.slots, k) < |b.slots|)
    ensures !Inserting(o, b, k, n)
  {
    var own := FindOwn(o, b.slots, k);
    n := if b.back == -1 then |b.slots| else own + 1;
    WalkForward(b, n - 1);
  }

  /** And the lookup loop on a finite chain or when something matches. */
  lemma {:induction false} SearchEndsExactly(o: KeyOps, b: Bucket, k: Key)
    requires Shaped(b)
    ensures (exists n: nat :: !Searching(o, b, k, n)) <==> b.back == -1 || FirstMatch(o, b.slots, k) < |b.slots|
  {
    hide Searching;
    if b.back == -1 || FirstMatch(o, b.slots, k) < |b.slots| {
      var n := SearchStops(o, b, k);
    } else {
      forall n: nat ensures Searching(o, b, k, n) { AbsentSearchNeverEnds(o, b, k, n); }
    }
  }

  lemma {:induction false} SearchStops(o: KeyOps, b: Bucket, k: Key) returns (n: nat)
    requires Shaped(b) && (b.back == -1 || FirstMatch(o, b.slots, k) < |b.slots|)
    ensures !Searching(o, b, k, n)
  {
    var i := FirstMatch(o, b.slots, k);
    n := if b.back == -1 then |b.slots| else i + 1;
    WalkForward(b, n - 1);
  }

  /** Iteration leaves a bucket at null only. The lasso an insertion leaves it never does: after any number of
      steps the entry just inserted comes once more. */
  lemma {:induction false} LassoNeverLeft(o: KeyOps, s: seq<Slot>, k: Key, v: Value, n: nat) returns (m: nat)
    requires |s| > 0 && FindOwn(o, s, k) == |s| && !Finite(Insert(o, s, k, v).0)
    ensures var b := Insert(o, s, k, v).0;
            && Walk(b, n) >= 0
            && m > n && Walk(b, m) >= 0 && b.slots[Walk(b, m)] == Slot(true, k, v)
  {
    var b := Insert(o, s, k, v).0;
    FiniteIffNoBack(b);
    LassoNeverNull(b, n);
    m := LassoReturns(b, n);
  }

  /** Following `next` from the head comes to node i more than once. */
  ghost predicate VisitedTwice(b: Bucket, i: nat)
    requires Shaped(b)
  {
    exists n: nat, m: nat :: n < m && Walk(b, n) == i && Walk(b, m) == i
  }

  lemma {:induction false} WalkPlace(b: Bucket, n: nat)
    requires Shaped(b) && 0 <= Walk(b, n) && (b.back == -1 || Walk(b, n) < b.back)
    ensures n == Walk(b, n)
  {
    if n > 0 { WalkPlace(b, n - 1); }
  }

  /** Exactly the nodes of the circle are visited more than once. */
  lemma {:induction false} VisitedTwiceExactly(b: Bucket, i: nat)
    requires Shaped(b) && i < |b.slots|
    ensures VisitedTwice(b, i) <==> 0 <= b.back <= i
  {
    if 0 <= b.back <= i {
      WalkForward(b, i);
      var m := LassoReturns(b, i);
      WalkAhead(b, m, i - b.back);
      assert i < m + (i - b.back);
    } else if VisitedTwice(b, i) {
      var n: nat, m: nat :| n < m && Walk(b, n) == i && Walk(b, m) == i;
      WalkPlace(b, n);
      WalkPlace(b, m);
      assert false;
    }
  }

  /** The release of a bucket follows `next`, destroys every entry it comes to and frees every node behind the
      head. It does so once for each exactly on a finite chain: on a circle the tail, for one, is come to
      again after it was freed. */
  lemma {:induction false} ReleasedOnceExactly(b: Bucket)
    requires Shaped(b)
    ensures b.back == -1 <==> forall i :: 1 <= i < |b.slots| ==> !VisitedTwice(b, i)
    ensures b.back == -1 <==> forall i :: 0 <= i < |b.slots| ==> !VisitedTwice(b, i)
  {
    forall i | 0 <= i < |b.slots| ensures VisitedTwice(b, i) <==> 0 <= b.back <= i { VisitedTwiceExactly(b, i); }
    if b.back >= 0 { assert VisitedTwice(b, |b.slots| - 1); }
  }

  /** Searching stops exactly at the first match or at the end of a finite chain. */
  lemma {:induction false} SearchPrefix(o: KeyOps, b: Bucket, k: Key, n: nat)
    requires Shaped(b) && n < |b.slots|
    ensures Searching(o, b, k, n) <==> n <= FirstMatch(o, b.slots, k)
  {
    WalkForward(b, n);
    if n > 0 {
      WalkForward(b, n - 1);
      SearchPrefix(o, b, k, n - 1);
    }
  }

  /** The acyclicity condition, exactly: with the key not already stored under its own address,
      insertion leaves a chain that ends iff there was no unoccupied slot or the last unoccupied
      one is the tail. Otherwise a lookup of any key no slot matches never ends. */
  lemma {:induction false} InsertFiniteExactly(o: KeyOps, s: seq<Slot>, k: Key, v: Value, absent: Key)
    requires |s| > 0 && FindOwn(o, s, k) == |s|
    ensures var b := Insert(o, s, k, v).0;
            && Shaped(b)
            && (Finite(b) <==> (forall i :: 0 <= i < |s| ==> s[i].occ) || !s[|s| - 1].occ)
            && (!Finite(b) && (forall i :: 0 <= i < |b.slots| ==> !o.compare(b.slots[i].key, absent))
                ==> forall n: nat :: Searching(o, b, absent, n))
  {
    var b := Insert(o, s, k, v).0;
    FiniteIffNoBack(b);
    if b.back >= 0 && (forall i :: 0 <= i < |b.slots| ==> !o.compare(b.slots[i].key, absent)) {
      forall n: nat ensures Searching(o, b, absent, n) { AbsentSearchNeverEnds(o, b, absent, n); }
    }
  }

  /** On a finite chain every lookup ends within |slots| steps. */
  lemma {:induction false} FiniteSearchEnds(o: KeyOps, b: Bucket, k: Key)
    requires Shaped(b) && Finite(b)
    ensures !Searching(o, b, k, |b.slots|)
  {
    FiniteIffNoBack(b);
    WalkForward(b, |b.slots| - 1);
  }

  // ---- The occupied slots of a chain, in order ----

  function Occupied(s: seq<Slot>): (r: seq<Slot>)
    ensures |r| <= |s|
  {
    if s == [] then []
    else Occupied(s[..|s| - 1]) + (if s[|s| - 1].occ then [s[|s| - 1]] else [])
  }

  lemma {:induction false} OccupiedAppend(s: seq<Slot>, x: Slot)
    ensures Occupied(s + [x]) == Occupied(s) + (if x.occ then [x] else [])
  {
    assert (s + [x])[..|s|] == s;
  }

  lemma {:induction false} OccupiedConcat(s: seq<Slot>, t: seq<Slot>)
    ensures Occupied(s + t) == Occupied(s) + Occupied(t)
  {
    if t == [] {
      assert s + t == s;
    } else {
      var u, x := t[..|t| - 1], t[|t| - 1];
      OccupiedConcat(s, u);
      assert s + t == (s + u) + [x];
      OccupiedAppend(s + u, x);
      OccupiedAppend(u, x);
      assert t == u + [x];
    }
  }

  lemma {:induction false} OccupiedMember(s: seq<Slot>, x: Slot)
    ensures x in Occupied(s) <==> x in s && x.occ
  {
    if s != [] {
      OccupiedMember(s[..|s| - 1], x);
      assert s == s[..|s| - 1] + [s[|s| - 1]];
    }
  }

  /** Overwriting one slot, as a multiset of occupied slots. */
  lemma {:induction false} OccupiedUpdate(s: seq<Slot>, i: nat, x: Slot)
    requires i < |s|
    ensures multiset(Occupied(s[i := x])) + (if s[i].occ then multiset{s[i]} else multiset{}) ==
            multiset(Occupied(s)) + (if x.occ then multiset{x} else multiset{})
  {
    var a, c := s[..i], s[i + 1..];
    assert s == (a + [s[i]]) + c;
    assert s[i := x] == (a + [x]) + c;
    OccupiedConcat(a + [s[i]], c);
    OccupiedConcat(a + [x], c);
    OccupiedAppend(a, s[i]);
    OccupiedAppend(a, x);
  }

  /** No two occupied slots hold the same address. */
  predicate AddrDistinct(s: seq<Slot>) {
    forall i, j :: 0 <= i < j < |s| && s[i].occ && s[j].occ && s[i].key.Key? && s[j].key.Key?
      ==> s[i].key.addr != s[j].key.addr
  }
}
