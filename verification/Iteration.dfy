/** The resumable iterator over an unmodified map. */
module Iteration {
  import opened Keys
  import opened Chains
  import opened Tables
  import opened Hashmap

  /** Bucket b has been scanned up to place p, and everything before it, and that held `count` entries. */
  ghost predicate Scanned(rows: seq<Bucket>, b: nat, p: nat, count: nat) {
    b < |rows| && p <= |rows[b].slots| && count == |Entries(rows[..b])| + |Occupied(rows[b].slots[..p])|
  }

  /** No occupied slot of bucket b from place p up to place `to`. */
  predicate Dry(rows: seq<Bucket>, b: nat, p: nat, to: nat) {
    b < |rows| && p <= to <= |rows[b].slots| && forall j :: p <= j < to ==> !rows[b].slots[j].occ
  }

  /** The node at place p of bucket b, or null behind the last one. */
  ghost predicate ItemAt(chains: seq<seq<Entry>>, e: Entry?, b: nat, p: nat) {
    b < |chains| && p <= |chains[b]| && e == if p < |chains[b]| then chains[b][p] else null
  }

  /** The n-th answer is the n-th entry, in bucket then chain order, and "no more" for ever after. */
  predicate Faithful(answers: seq<Option<Slot>>, es: seq<Slot>) {
    forall n :: 0 <= n < |answers| ==> answers[n] == Answer(es, n)
  }

  function Answer(es: seq<Slot>, n: nat): Option<Slot> {
    if n < |es| then Some(es[n]) else None
  }

  /** How many entries have been handed out after n calls. */
  function Yielded(es: seq<Slot>, n: nat): nat {
    if n < |es| then n else |es|
  }

  lemma {:induction false} NextAnswer(answers: seq<Option<Slot>>, es: seq<Slot>)
    requires Faithful(answers, es)
    ensures var n := |answers|;
            && Faithful(answers + [Answer(es, n)], es)
            && (n < |es| <==> Yielded(es, n) < |es|)
            && (n < |es| ==> Answer(es, n) == Some(es[n]) && Yielded(es, n) == n && Yielded(es, n + 1) == n + 1)
            && (n >= |es| ==> Answer(es, n) == None && Yielded(es, n) == Yielded(es, n + 1) == |es|)
  {
  }

  class Iter {
    var bucket: int
    const table: Hashmap
    var item: Entry?
    /** Where `item` sits: its bucket and its place in the chain. */
    ghost var at: nat
    ghost var pos: nat
    /** What every call of Next so far answered. */
    ghost var answers: seq<Option<Slot>>

    /** The position kept between two calls. Past the last bucket the saved item may be a stale
        tombstone. */
    ghost predicate Placed(rows: seq<Bucket>, chains: seq<seq<Entry>>, count: nat)
      reads this
    {
      && bucket >= -1
      && (bucket == -1 ==> item == null && count == 0)
      && (0 <= bucket < |rows| ==> at == bucket && ItemAt(chains, item, at, pos) && Scanned(rows, at, pos, count))
      && (bucket >= |rows| ==>
            count == |Entries(rows)|
            && (item == null
                || (ItemAt(chains, item, at, pos) && at < |rows| && Dry(rows, at, pos, |rows[at].slots|))))
    }

    ghost predicate Valid()
      reads this, table, table.buckets, table.buckets.heads, NodesOf(table.buckets.chains)
    {
      && table.Linked() && table.buckets.Framed() && Straight(table.Model())
      && Faithful(answers, Entries(table.buckets.rows))
      && Placed(table.buckets.rows, table.buckets.chains, Yielded(Entries(table.buckets.rows), |answers|))
    }

    lemma NotANode()
      ensures forall e: object :: e in NodesOf(table.buckets.chains) ==> e != this
    {
    }

    /** `nc_hashmap_iter_init`. */
    constructor (table: Hashmap)
      requires table.Linked() && table.buckets.Framed()
      ensures this.table == table && bucket == -1 && item == null && answers == []
      ensures Straight(table.Model()) ==> Valid()
    {
      this.table := table;
      bucket := -1;
      item := null;
      at, pos := 0, 0;
      answers := [];
      new;
      NotANode();
    }

    /** One call: the next entry if one is left, whatever the saved item has become since. */
    method Next() returns (ok: bool, key: Key, value: Value)
      requires Valid()
      modifies this
      ensures Valid()
      ensures var es := Entries(table.buckets.rows); var n := |old(answers)|;
              && ok == (n < |es|)
              && (ok ==> es[n] == Slot(true, key, value))
              && answers == old(answers) + [Answer(es, n)]
    {
      hide Entries, Placed, Straight;
      if bucket >= table.buckets.heads.Length {
        PastLast();
        ok, key, value := false, Null, 0;
      } else {
        ok, key, value := Advance();
      }
    }

    /** A call after the last bucket has been left. */
    method PastLast()
      requires Valid() && bucket >= table.buckets.heads.Length
      modifies this
      ensures Valid() && answers == old(answers) + [None] && |old(answers)| >= |Entries(table.buckets.rows)|
      ensures item == old(item) && bucket == old(bucket) + if item == null then 1 else 0
    {
      hide BucketArray.Linked, Entries, Occupied, Straight, Faithful, Yielded, Answer;
      NotANode();
      NextAnswer(answers, Entries(table.buckets.rows));
      var leftAgain := FollowStale();
      bucket := bucket + if leftAgain then 1 else 0;
      answers := answers + [None];
    }

    /** A call before that. */
    method Advance() returns (ok: bool, key: Key, value: Value)
      requires Valid() && bucket < table.buckets.heads.Length
      modifies this
      ensures Valid()
      ensures var es := Entries(table.buckets.rows); var n := |old(answers)|;
              && ok == (n < |es|)
              && (ok ==> es[n] == Slot(true, key, value))
              && answers == old(answers) + [Answer(es, n)]
    {
      hide BucketArray.Linked, Entries, Occupied, Straight, Faithful, Yielded, Answer;
      NotANode();
      ghost var es, n := Entries(table.buckets.rows), Yielded(Entries(table.buckets.rows), |answers|);
      NextAnswer(answers, es);
      var e, b, p := Seek(n);
      bucket := b;
      if e == null {
        ok, key, value := false, Null, 0;
        answers := answers + [None];
      } else {
        NodeFacts(b, p, n);
        answers := answers + [Some(es[n])];
        item := e.next;
        at, pos := b, p + 1;
        ok, key, value := true, e.key, e.value;
      }
    }

    /** The loop once the last bucket has been left: the stale chain is followed to its last node, or,
        with nothing saved, the bucket counter moves on once more. */
    method FollowStale() returns (leftAgain: bool)
      requires Valid() && bucket >= table.buckets.heads.Length
      ensures leftAgain == (item == null)
    {
      ghost var rows, chains := table.buckets.rows, table.buckets.chains;
      var e := this.item;
      ghost var p := pos;
      while true
        invariant e == null <==> item == null
        invariant e != null ==> ItemAt(chains, e, at, p) && Dry(rows, at, p, |rows[at].slots|)
        decreases if e == null then 0 else 1 + |chains[at]| - p
      {
        if e != null && e.next == null {
          return false;
        }
        if e == null {
          return true;
        }
        assert table.buckets.NodeOk(at, p);
        if e.occ {
          assert false;
        }
        e := e.next;
        p := p + 1;
      }
    }

    /** The scan from the saved item to the next occupied node; null when the last bucket is left. */
    method Seek(ghost count: nat) returns (e: Entry?, b: int, ghost p: nat)
      requires Valid() && bucket < table.buckets.heads.Length
      requires count == Yielded(Entries(table.buckets.rows), |answers|)
      ensures var rows, chains := table.buckets.rows, table.buckets.chains;
              && (e != null ==> 0 <= b < |rows| && ItemAt(chains, e, b, p) && Scanned(rows, b, p, count)
                                && p < |rows[b].slots| && rows[b].slots[p].occ)
              && (e == null ==> b == |rows| && count == |Entries(rows)|
                                && (bucket >= 0 ==> Dry(rows, at, pos, |rows[at].slots|)))
    {
      hide Entries, Occupied;
      ghost var rows, chains := table.buckets.rows, table.buckets.chains;
      var n := table.buckets.heads.Length;
      e, b, p := item, bucket, pos;
      while true
        invariant bucket <= b < n
        invariant b == -1 ==> e == null && count == 0
        invariant b >= 0 ==> ItemAt(chains, e, b, p) && Scanned(rows, b, p, count)
        invariant b == bucket >= 0 ==> Dry(rows, at, pos, p)
        invariant b > bucket >= 0 ==> Dry(rows, at, pos, |rows[at].slots|)
        decreases n - b, if b == -1 then 0 else |chains[b]| - p
      {
        if e == null {
          if b >= 0 {
            EntriesSlice(rows, b);
            assert rows[b].slots[..p] == rows[b].slots;
          } else {
            EntriesNone(rows);
          }
          b := b + 1;
          p := 0;
          if b > n - 1 {
            assert rows[..|rows|] == rows;
            return;
          }
          OccupiedNone(rows[b].slots);
          e := table.buckets.heads[b];
        }
        assert table.buckets.NodeOk(b, p);
        if e.occ {
          return;
        }
        CountNext(rows[b].slots, p);
        e := e.next;
        p := p + 1;
      }
    }

    /** The occupied node found is the next entry of the whole list. */
    lemma {:induction false} NodeFacts(b: nat, p: nat, count: nat)
      requires table.Linked() && table.buckets.Framed() && Straight(table.Model())
      requires Scanned(table.buckets.rows, b, p, count)
      requires p < |table.buckets.rows[b].slots| && table.buckets.rows[b].slots[p].occ
      ensures var rows := table.buckets.rows; var e := table.buckets.chains[b][p];
              && count < |Entries(rows)| && Entries(rows)[count] == Slot(true, e.key, e.value)
              && ItemAt(table.buckets.chains, e.next, b, p + 1) && Scanned(rows, b, p + 1, count + 1)
    {
      hide Entries, Occupied;
      var rows := table.buckets.rows;
      assert table.buckets.NodeOk(b, p);
      EntriesSlice(rows, b);
      NextEntry(rows[b].slots, p, Entries(rows), |Entries(rows[..b])|);
      CountNext(rows[b].slots, p);
    }
  }
}
