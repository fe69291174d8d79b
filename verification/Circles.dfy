/** Resizing a table that holds a circular chain: the move of entries, node by node. It fails where it meets an
    entry again, or never ends; on finite chains it does neither. */
module Circles {
  import opened Keys
  import opened Chains
  import opened Tables
  import opened Refinement
  import opened Histories

  // ---- The walk over one old bucket ----

  /** The new buckets and the entries added so far, or the jump to the failure label, with the entry that was
      found in the new buckets and replaced. */
  datatype Moving = Moving(rows: seq<Bucket>, items: nat) | Failed(rows: seq<Bucket>, again: Slot)

  /** The state after the first n nodes that `next` leads to from the head of the old bucket. */
  function MoveAfter(o: KeyOps, b: Bucket, rows: seq<Bucket>, n: nat): (r: Moving)
    requires Shaped(b) && |rows| > 0
    ensures |r.rows| == |rows|
  {
    if n == 0 then Moving(rows, 0)
    else
      match MoveAfter(o, b, rows, n - 1)
      case Failed(a, x) => Failed(a, x)
      case Moving(a, items) =>
        var i := Walk(b, n - 1);
        if i == -1 || !b.slots[i].occ then Moving(a, items) else MoveOne(o, a, items, b.slots[i])
  }

  function MoveOne(o: KeyOps, rows: seq<Bucket>, items: nat, x: Slot): (r: Moving)
    requires |rows| > 0
    ensures |r.rows| == |rows|
  {
    var h := Home(o, |rows|, x.key);
    var own := FindOwn(o, rows[h].slots, x.key);
    var (row, inc) := InsertInto(o, rows[h], x.key, x.value);
    if inc > 0 || own == |rows[h].slots| then Moving(rows[h := row], items + 1)
    else Failed(rows[h := row], rows[h].slots[own])
  }

  /** What the walk needs of the entries: those moved before and those of the bucket have different addresses. */
  ghost predicate Apart(es: seq<Slot>, b: Bucket) {
    var all := es + Occupied(b.slots);
    Separate(multiset(all)) && forall x :: x in all ==> x.occ
  }

  lemma {:induction false} ApartPrefix(es: seq<Slot>, b: Bucket, n: nat)
    requires n < |b.slots| && Apart(es, b) && b.slots[n].occ
    ensures Movable(es + Occupied(b.slots[..n]), b.slots[n])
  {
    hide Occupied, Separate, Movable;
    var s := b.slots;
    var u, x := es + Occupied(s[..n]), s[n];
    EntriesAround(s, n);
    var rest := Occupied(s[n + 1..]);
    assert es + Occupied(s) == (u + [x]) + rest;
    PrefixMovable(u, x, rest);
  }

  /** The entries of a chain are those before one of them, itself, and those behind. */
  lemma {:induction false} EntriesAround(s: seq<Slot>, n: nat)
    requires n < |s| && s[n].occ
    ensures Occupied(s) == Occupied(s[..n]) + [s[n]] + Occupied(s[n + 1..])
  {
    hide Occupied;
    OccupiedAppend(s[..n], s[n]);
    OccupiedConcat(s[..n] + [s[n]], s[n + 1..]);
    assert s == (s[..n] + [s[n]]) + s[n + 1..];
  }

  lemma {:induction false} PrefixMovable(u: seq<Slot>, x: Slot, rest: seq<Slot>)
    requires Separate(multiset((u + [x]) + rest)) && forall y :: y in (u + [x]) + rest ==> y.occ
    ensures Movable(u, x)
  {
    SeparateLeft(u + [x], rest);
    forall y | y in u + [x] ensures y.occ { assert y in (u + [x]) + rest; }
    assert x in u + [x];
    forall y | y in u ensures y.occ { assert y in u + [x]; }
    SeparatePrefix(u, x);
  }

  lemma {:induction false} SeparateLeft(u: seq<Slot>, v: seq<Slot>)
    requires Separate(multiset(u + v))
    ensures Separate(multiset(u))
  {
    var m := multiset(u + v);
    assert m == multiset(u) + multiset(v);
    forall y | y in multiset(u) ensures y in m && multiset(u)[y] == 1 { assert y in m; }
  }

  /** The first lap adds every entry of the bucket, in order. */
  lemma {:induction false} FirstLap(o: KeyOps, b: Bucket, size: nat, es: seq<Slot>, n: nat)
    requires Shaped(b) && size > 0 && Apart(es, b) && n <= |b.slots|
    ensures |Spread(o, size, es)| == size
    ensures MoveAfter(o, b, Spread(o, size, es), n) ==
            Moving(Spread(o, size, es + Occupied(b.slots[..n])), |Occupied(b.slots[..n])|)
  {
    SpreadSize(o, size, es);
    if n == 0 {
      assert es + Occupied(b.slots[..0]) == es;
    } else {
      hide MoveOne, Spread, Apart, Occupied, Walk;
      FirstLap(o, b, size, es, n - 1);
      WalkForward(b, n - 1);
      FirstLapNext(o, b, size, es, n - 1);
    }
  }

  lemma {:induction false} SpreadSize(o: KeyOps, size: nat, es: seq<Slot>)
    requires size > 0
    ensures |Spread(o, size, es)| == size
  {
  }

  lemma {:induction false} FirstLapNext(o: KeyOps, b: Bucket, size: nat, es: seq<Slot>, n: nat)
    requires size > 0 && Apart(es, b) && n < |b.slots| && |Spread(o, size, es + Occupied(b.slots[..n]))| > 0
    ensures var s, x := b.slots, b.slots[n];
            Moving(Spread(o, size, es + Occupied(s[..n + 1])), |Occupied(s[..n + 1])|) ==
            if x.occ then MoveOne(o, Spread(o, size, es + Occupied(s[..n])), |Occupied(s[..n])|, x)
            else Moving(Spread(o, size, es + Occupied(s[..n])), |Occupied(s[..n])|)
  {
    hide MoveOne, Spread, Apart, Occupied;
    var s, x := b.slots, b.slots[n];
    OccupiedAppend(s[..n], x);
    assert s[..n + 1] == s[..n] + [x];
    if x.occ {
      ApartPrefix(es, b, n);
      assert es + Occupied(s[..n + 1]) == (es + Occupied(s[..n])) + [x];
      MoveNew(o, size, es + Occupied(s[..n]), |Occupied(s[..n])|, x);
    } else {
      assert Occupied(s[..n]) + [] == Occupied(s[..n]);
    }
  }

  lemma {:induction false} MoveNew(o: KeyOps, size: nat, es: seq<Slot>, items: nat, x: Slot)
    requires size > 0 && Movable(es, x)
    ensures |Spread(o, size, es)| == size
    ensures MoveOne(o, Spread(o, size, es), items, x) == Moving(Spread(o, size, es + [x]), items + 1)
  {
    SpreadInsert(o, size, es, x);
  }

  lemma {:induction false} MoveAgain(o: KeyOps, size: nat, es: seq<Slot>, items: nat, x: Slot)
    requires Lawful(o) && size > 0 && x in es && (forall y :: y in es ==> y.occ) && Separate(multiset(es))
    ensures |Spread(o, size, es)| == size
    ensures MoveOne(o, Spread(o, size, es), items, x) == Failed(Spread(o, size, es), x)
  {
    SpreadAgain(o, size, es, x);
    var rows, h := Spread(o, size, es), Home(o, size, x.key);
    assert rows[h := rows[h]] == rows;
  }

  /** Where the walk stands d steps into the second lap. */
  lemma {:induction false} OnSecondLap(b: Bucket, d: nat)
    requires Shaped(b) && b.back >= 0 && b.back + d < |b.slots|
    ensures Walk(b, |b.slots| + d) == b.back + d
  {
    WalkForward(b, |b.slots| - 1);
    WalkAhead(b, |b.slots|, d);
  }

  /** The second lap changes nothing until it comes to an entry. */
  lemma {:induction false} SecondLap(o: KeyOps, b: Bucket, size: nat, es: seq<Slot>, d: nat)
    requires Shaped(b) && b.back >= 0 && size > 0 && Apart(es, b) && b.back + d <= Repeated(b)
    ensures MoveAfter(o, b, Spread(o, size, es), |b.slots| + d) ==
            Moving(Spread(o, size, es + Occupied(b.slots)), |Occupied(b.slots)|)
  {
    hide Spread, Apart, Occupied;
    if d == 0 {
      FirstLap(o, b, size, es, |b.slots|);
      assert b.slots[..|b.slots|] == b.slots;
    } else {
      SecondLap(o, b, size, es, d - 1);
      OnSecondLap(b, d - 1);
    }
  }

  /** Where a walk fails: at the first entry of the second lap, with everything moved. */
  lemma {:induction false} FailsThere(o: KeyOps, b: Bucket, size: nat, es: seq<Slot>)
    requires Lawful(o) && Shaped(b) && b.back >= 0 && Repeated(b) < |b.slots| && size > 0 && Apart(es, b)
    ensures var n := |b.slots| + (Repeated(b) - b.back);
            && MoveAfter(o, b, Spread(o, size, es), n).Moving?
            && MoveAfter(o, b, Spread(o, size, es), n + 1) ==
               Failed(Spread(o, size, es + Occupied(b.slots)), b.slots[Repeated(b)])
  {
    hide Spread, Occupied, InsertInto, FindOwn;
    var d, i := Repeated(b) - b.back, Repeated(b);
    SecondLap(o, b, size, es, d);
    OnSecondLap(b, d);
    OccupiedMember(b.slots, b.slots[i]);
    MoveAgain(o, size, es + Occupied(b.slots), |Occupied(b.slots)|, b.slots[i]);
  }

  lemma {:induction false} FailedStays(o: KeyOps, b: Bucket, rows: seq<Bucket>, n: nat, m: nat)
    requires Shaped(b) && |rows| > 0 && n <= m && MoveAfter(o, b, rows, n).Failed?
    ensures MoveAfter(o, b, rows, m) == MoveAfter(o, b, rows, n)
  {
    if n < m { FailedStays(o, b, rows, n, m - 1); }
  }

  /** Behind the end of a finite chain, and on a circle of tombstones, nothing happens any more. */
  lemma {:induction false} NothingMore(o: KeyOps, b: Bucket, size: nat, es: seq<Slot>, n: nat)
    requires Shaped(b) && size > 0 && Apart(es, b) && n >= |b.slots|
    requires b.back == -1 || Repeated(b) == |b.slots|
    ensures MoveAfter(o, b, Spread(o, size, es), n) ==
            Moving(Spread(o, size, es + Occupied(b.slots)), |Occupied(b.slots)|)
    ensures if b.back == -1 then Walk(b, n) == -1 else Walk(b, n) >= b.back
  {
    hide Spread, Apart, Occupied;
    if n == |b.slots| {
      FirstLap(o, b, size, es, n);
      WalkForward(b, n - 1);
      assert b.slots[..n] == b.slots;
    } else {
      NothingMore(o, b, size, es, n - 1);
    }
  }

  /** The failure label was reached within n nodes. */
  predicate FailsAt(o: KeyOps, b: Bucket, rows: seq<Bucket>, n: nat)
    requires Shaped(b) && |rows| > 0
  {
    MoveAfter(o, b, rows, n).Failed?
  }

  /** After n nodes the walk is at null. */
  predicate EndsAt(b: Bucket, n: nat)
    requires Shaped(b)
  {
    Walk(b, n) == -1
  }

  /** The failure label, exactly: the walk over an old bucket reaches it iff the chain is a circle that holds an
      entry. Then all entries of the bucket were moved, and the one found again is the circle's first. A walk
      over a finite chain moves all entries too and ends; on a circle of tombstones it never does. */
  lemma {:induction false} MoveFailsExactly(o: KeyOps, b: Bucket, size: nat, es: seq<Slot>)
    requires Lawful(o) && Shaped(b) && size > 0 && Apart(es, b)
    ensures |Spread(o, size, es)| > 0
    ensures var rows, done := Spread(o, size, es), Spread(o, size, es + Occupied(b.slots));
            && ((exists n: nat :: FailsAt(o, b, rows, n)) <==> b.back >= 0 && Repeated(b) < |b.slots|)
            && (forall n: nat :: FailsAt(o, b, rows, n) ==>
                  b.back >= 0 && Repeated(b) < |b.slots|
                  && MoveAfter(o, b, rows, n) == Failed(done, b.slots[Repeated(b)]))
            && ((exists n: nat :: EndsAt(b, n)) <==> b.back == -1)
            && (forall n: nat :: EndsAt(b, n) ==> MoveAfter(o, b, rows, n) == Moving(done, |Occupied(b.slots)|))
  {
    hide MoveAfter, Spread, Occupied, Apart, Walk;
    SpreadSize(o, size, es);
    EndsExactly(b);
    var rows, done := Spread(o, size, es), Spread(o, size, es + Occupied(b.slots));
    if b.back >= 0 && Repeated(b) < |b.slots| {
      FailsThere(o, b, size, es);
      assert FailsAt(o, b, rows, |b.slots| + (Repeated(b) - b.back) + 1);
    }
    forall n: nat | FailsAt(o, b, rows, n)
      ensures b.back >= 0 && Repeated(b) < |b.slots| && MoveAfter(o, b, rows, n) == Failed(done, b.slots[Repeated(b)])
    {
      FailureIsThere(o, b, size, es, n);
    }
    forall n: nat | EndsAt(b, n) ensures MoveAfter(o, b, rows, n) == Moving(done, |Occupied(b.slots)|) {
      NullIsBehind(b, n);
      NothingMore(o, b, size, es, n);
    }
  }

  lemma {:induction false} EndsExactly(b: Bucket)
    requires Shaped(b)
    ensures (exists n: nat :: EndsAt(b, n)) <==> b.back == -1
  {
    hide Walk;
    if b.back == -1 {
      NullBehindTail(b);
    } else {
      forall n: nat ensures !EndsAt(b, n) { LassoNeverNull(b, n); }
    }
  }

  lemma {:induction false} NullBehindTail(b: Bucket)
    requires Shaped(b) && b.back == -1
    ensures EndsAt(b, |b.slots|)
  {
    WalkForward(b, |b.slots| - 1);
  }

  lemma {:induction false} NullIsBehind(b: Bucket, n: nat)
    requires Shaped(b) && EndsAt(b, n)
    ensures n >= |b.slots|
  {
    if n < |b.slots| { WalkForward(b, n); }
  }

  lemma {:induction false} FailureIsThere(o: KeyOps, b: Bucket, size: nat, es: seq<Slot>, n: nat)
    requires Lawful(o) && Shaped(b) && size > 0 && Apart(es, b) && |Spread(o, size, es)| > 0
    requires MoveAfter(o, b, Spread(o, size, es), n).Failed?
    ensures b.back >= 0 && Repeated(b) < |b.slots|
    ensures MoveAfter(o, b, Spread(o, size, es), n) ==
            Failed(Spread(o, size, es + Occupied(b.slots)), b.slots[Repeated(b)])
  {
    hide Spread, Occupied, Apart, MoveAfter;
    SpreadSize(o, size, es);
    var rows := Spread(o, size, es);
    if n <= |b.slots| {
      FirstLap(o, b, size, es, n);
    } else if b.back == -1 || Repeated(b) == |b.slots| {
      NothingMore(o, b, size, es, n);
    } else {
      FailsThere(o, b, size, es);
      var m := |b.slots| + (Repeated(b) - b.back) + 1;
      if n < m {
        SecondLap(o, b, size, es, n - |b.slots|);
      } else {
        FailedStays(o, b, rows, m, n);
      }
    }
  }

  // ---- The whole resize ----

  /** How the loops over the old array end: all entries in the new array, or the jump to the failure label, or
      not at all. */
  datatype ResizeEnd = Grown(rows: seq<Bucket>) | Stopped(rows: seq<Bucket>, again: Slot) | Endless

  ghost function ChainEnd(o: KeyOps, b: Bucket, rows: seq<Bucket>): (r: ResizeEnd)
    requires Shaped(b) && |rows| > 0
    ensures r.Grown? ==> |r.rows| == |rows|
  {
    if exists n: nat :: FailsAt(o, b, rows, n) then
      var n: nat :| FailsAt(o, b, rows, n);
      Stopped(MoveAfter(o, b, rows, n).rows, MoveAfter(o, b, rows, n).again)
    else if exists n: nat :: EndsAt(b, n) then
      var n: nat :| EndsAt(b, n);
      Grown(MoveAfter(o, b, rows, n).rows)
    else Endless
  }

  ghost function ResizeFrom(o: KeyOps, src: seq<Bucket>, c: nat, rows: seq<Bucket>): ResizeEnd
    requires c <= |src| && |rows| > 0 && forall b :: 0 <= b < |src| ==> Shaped(src[b])
    decreases |src| - c
  {
    if c == |src| then Grown(rows)
    else
      match ChainEnd(o, src[c], rows)
      case Grown(r) => ResizeFrom(o, src, c + 1, r)
      case Stopped(r, x) => Stopped(r, x)
      case Endless => Endless
  }

  lemma {:induction false} ChainEndIs(o: KeyOps, b: Bucket, size: nat, es: seq<Slot>)
    requires Lawful(o) && Shaped(b) && size > 0 && Apart(es, b) && |Spread(o, size, es)| > 0
    ensures var done := Spread(o, size, es + Occupied(b.slots));
            ChainEnd(o, b, Spread(o, size, es)) ==
            if b.back == -1 then Grown(done)
            else if Repeated(b) < |b.slots| then Stopped(done, b.slots[Repeated(b)])
            else Endless
  {
    hide MoveAfter, FailsAt, EndsAt, Spread, Occupied, Apart, Walk;
    MoveFailsExactly(o, b, size, es);
  }

  ghost function WholeResize(o: KeyOps, t: Table): ResizeEnd
    requires |t.rows| > 0 && forall b :: 0 <= b < |t.rows| ==> Shaped(t.rows[b])
  {
    ResizeFrom(o, t.rows, 0, seq(INCREASE_FACTOR * |t.rows|, _ => Bucket([VACANT], -1)))
  }

  lemma {:induction false} RowsShaped(o: KeyOps, t: Table)
    requires Inv(o, t)
    ensures |t.rows| > 0 && forall b :: 0 <= b < |t.rows| ==> Shaped(t.rows[b])
  {
    forall b | 0 <= b < |t.rows| ensures Shaped(t.rows[b]) { assert RowOk(o, |t.rows|, b, t.rows[b]); }
  }

  /** What a resize comes to: on finite chains the resized table; otherwise the first circle decides between
      the failure label and no end. No allocation fails here. */
  lemma {:induction false} ResizeExactly(o: KeyOps, t: Table)
    requires Lawful(o) && Inv(o, t)
    ensures |t.rows| > 0 && forall b :: 0 <= b < |t.rows| ==> Shaped(t.rows[b])
    ensures WholeResize(o, t) ==
            if Straight(t) then Grown(Resize(o, t).rows)
            else if ResizeEnds(t.rows) then ResizeStopped(o, t)
            else Endless
  {
    RowsShaped(o, t);
    var size := INCREASE_FACTOR * |t.rows|;
    BlankSpread(o, size);
    EntriesNone(t.rows);
    ResizeFromIs(o, t, 0);
  }

  function ResizeStopped(o: KeyOps, t: Table): ResizeEnd
    requires |t.rows| > 0 && !Straight(t) && ResizeEnds(t.rows)
  {
    StraightExactly(t.rows);
    Stopped(Spread(o, INCREASE_FACTOR * |t.rows|, MovedFirst(t.rows)), Twice(t.rows))
  }

  lemma {:induction false} BlankSpread(o: KeyOps, n: nat)
    requires n > 0
    ensures Spread(o, n, []) == seq(n, _ => Bucket([VACANT], -1))
  {
    assert forall b :: 0 <= b < n ==> Gathered(Share(o, n, b, [])) == Bucket([VACANT], -1);
  }

  lemma {:induction false} ResizeFromIs(o: KeyOps, t: Table, c: nat)
    requires Lawful(o) && Inv(o, t) && c <= FirstCircle(t.rows)
    requires |t.rows| > 0 && forall b :: 0 <= b < |t.rows| ==> Shaped(t.rows[b])
    requires |Spread(o, INCREASE_FACTOR * |t.rows|, Entries(t.rows[..c]))| > 0
    ensures ResizeFrom(o, t.rows, c, Spread(o, INCREASE_FACTOR * |t.rows|, Entries(t.rows[..c]))) ==
            if Straight(t) then Grown(Resize(o, t).rows)
            else if ResizeEnds(t.rows) then ResizeStopped(o, t)
            else Endless
    decreases |t.rows| - c
  {
    hide Inv, Spread, Entries, Occupied, ChainEnd, FirstCircle, Apart;
    var size := INCREASE_FACTOR * |t.rows|;
    StraightExactly(t.rows);
    if c == |t.rows| {
      assert t.rows[..c] == t.rows;
    } else {
      ApartRows(o, t, c);
      EntriesSlice(t.rows, c);
      ChainEndIs(o, t.rows[c], size, Entries(t.rows[..c]));
      CircleIs(t.rows, c);
      if t.rows[c].back == -1 {
        SpreadSize(o, size, Entries(t.rows[..c + 1]));
        ResizeFromIs(o, t, c + 1);
      }
    }
  }

  lemma {:induction false} CircleIs(rows: seq<Bucket>, c: nat)
    requires c < |rows| && c <= FirstCircle(rows)
    ensures rows[c].back != -1 <==> FirstCircle(rows) == c
    ensures rows[c].back == -1 ==> c + 1 <= FirstCircle(rows)
  {
  }

  lemma {:induction false} ApartRows(o: KeyOps, t: Table, c: nat)
    requires Inv(o, t) && c < |t.rows|
    ensures Apart(Entries(t.rows[..c]), t.rows[c])
  {
    hide Entries, Occupied, Separate;
    EntriesSlice(t.rows, c);
    var all, es := Entries(t.rows[..c]) + Occupied(t.rows[c].slots), Entries(t.rows);
    assert es == all + es[|all|..];
    SeparateLeft(all, es[|all|..]);
    forall x | x in all ensures x.occ {
      assert x in es;
      EntriesOccupied(t.rows, x);
    }
  }

  /** `PutEnds` is the condition for a put to come to an end. */
  lemma {:induction false} PutEndsExactly(o: KeyOps, t: Table, k: Key)
    requires Lawful(o) && Inv(o, t) && k.Key?
    ensures |t.rows| > 0 && forall b :: 0 <= b < |t.rows| ==> Shaped(t.rows[b])
    ensures var r := Roomy(o, t); var b := r.rows[Home(o, |r.rows|, k)];
            && Shaped(b)
            && (PutEnds(o, t, k) <==>
                if PutRefused(t) then !WholeResize(o, t).Endless? else exists n: nat :: !Inserting(o, b, k, n))
  {
    hide Inv, Inserting, Roomy, WholeResize;
    RowsShaped(o, t);
    ResizeExactly(o, t);
    RoomyKeeps(o, t);
    var r := Roomy(o, t);
    RowsShaped(o, r);
    InsertEndsExactly(o, r.rows[Home(o, |r.rows|, k)], k);
  }

  // ---- What a refused put does ----

  /** It stores nothing and answers false, and the destructors are called on entries that stay in the table:
      on each one moved before the failure, and on one of them a second time. */
  lemma {:induction false} RefusedReleases(o: KeyOps, t: Table, k: Key, v: Value)
    requires Lawful(o) && Inv(o, t) && PutRefused(t) && ResizeEnds(t.rows)
    ensures |t.rows| > 0 && FirstCircle(t.rows) < |t.rows|
    ensures var (t', added) := Put(o, t, k, v);
            && !added && t'.rows == t.rows && t'.size == t.size
            && multiset(t'.released) ==
               multiset(t.released) + multiset(MovedFirst(t.rows)) + multiset{Twice(t.rows)}
            && multiset(MovedFirst(t.rows)) <= Bag(t') && Twice(t.rows) in MovedFirst(t.rows)
  {
    hide Entries, Occupied, Separate, Spread;
    StraightExactly(t.rows);
    var c, size := FirstCircle(t.rows), INCREASE_FACTOR * |t.rows|;
    EntriesSlice(t.rows, c);
    ApartRows(o, t, c);
    var es := MovedFirst(t.rows);
    assert es == Entries(t.rows[..c]) + Occupied(t.rows[c].slots);
    SpreadBag(o, size, es);
    OccupiedMember(t.rows[c].slots, Twice(t.rows));
    assert Entries(t.rows) == es + Entries(t.rows)[|es|..];
    ThreeParts(t.released, Twice(t.rows), Entries(Spread(o, size, es)), es);
  }

  lemma {:induction false} ThreeParts(r: seq<Slot>, x: Slot, es: seq<Slot>, es': seq<Slot>)
    requires multiset(es) == multiset(es')
    ensures multiset(r + [x] + es) == multiset(r) + multiset(es') + multiset{x}
  {
  }

  // ---- Runs on any table ----

  /** The operation comes to an end, circles or not, and its key is in order. */
  ghost predicate OpEnds(o: KeyOps, t: Table, op: Op)
    requires |t.rows| > 0
  {
    var b := t.rows[Home(o, |t.rows|, op.k)];
    && op.k.Key?
    && if op.PutOp? then Coherent(t, op.k) && PutEnds(o, t, op.k)
       else b.back == -1 || FirstMatch(o, b.slots, op.k) < |b.slots|
  }

  ghost predicate EndingRun(o: KeyOps, t: Table, ops: seq<Op>)
    requires |t.rows| > 0
    decreases |ops|
  {
    ops != [] ==> OpEnds(o, t, ops[0]) && EndingRun(o, Step(o, t, ops[0]).0, ops[1..])
  }

  /** Circles or not, every run whose operations end keeps the invariant: entries in their home buckets, one per
      address, counted exactly, and within the load limit. */
  lemma {:induction false} EndingRunKeeps(o: KeyOps, t: Table, ops: seq<Op>)
    requires Lawful(o) && Inv(o, t) && EndingRun(o, t, ops)
    ensures Inv(o, Run(o, t, ops).0)
    decreases |ops|
  {
    hide Inv, Put, Remove, PutEnds, Lawful, Coherent;
    if ops != [] {
      match ops[0] {
        case PutOp(k, v) => PutKeeps(o, t, k, v);
        case GetOp(k) =>
        case RemoveOp(k, nuke) => RemoveKeeps(o, t, k, nuke);
      }
      EndingRunKeeps(o, Step(o, t, ops[0]).0, ops[1..]);
    }
  }
}
