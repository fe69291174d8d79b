/** The map in memory: an array of inline bucket heads, nodes linked behind them and changed in place. */
module Hashmap {
  import opened Keys
  import opened Chains
  import opened Tables
  import opened Refinement
  import opened Histories

  /** One entry; `row` and `pos` record its bucket and its place in the chain for the proof. */
  class Entry {
    var key: Key
    var value: Value
    var next: Entry?
    var occ: bool
    ghost var row: nat
    ghost var pos: nat

    /** A zeroed entry. */
    constructor (ghost row: nat, ghost pos: nat)
      ensures key == Null && value == 0 && next == null && !occ
      ensures this.row == row && this.pos == pos
    {
      key, value, next, occ := Null, 0, null, false;
      this.row, this.pos := row, pos;
    }
  }

  /** Where the `next` of node i points: the following node, or for the last one wherever `back` says. */
  ghost function Target(nodes: seq<Entry>, back: int, i: nat): Entry?
    requires i < |nodes| && -1 <= back < |nodes|
  {
    if i + 1 < |nodes| then nodes[i + 1] else if back >= 0 then nodes[back] else null
  }

  ghost function NodesOf(cs: seq<seq<Entry>>): set<Entry> {
    set b, i | 0 <= b < |cs| && 0 <= i < |cs[b]| :: cs[b][i]
  }

  /** The nodes of the first n chains that were allocated one by one: all but the inline heads. */
  ghost function BehindBelow(cs: seq<seq<Entry>>, n: nat): set<object>
    requires n <= |cs|
  {
    set b, i | 0 <= b < n && 1 <= i < |cs[b]| :: cs[b][i] as object
  }

  ghost function Behind(cs: seq<seq<Entry>>): set<object> {
    BehindBelow(cs, |cs|)
  }

  /** The first j nodes of one chain, its head excepted. */
  ghost function BehindIn(nodes: seq<Entry>, j: nat): set<object>
    requires j <= |nodes|
  {
    set i | 1 <= i < j :: nodes[i] as object
  }

  /** An array of buckets; `chains` are the nodes of each bucket and `rows` what they hold. */
  class BucketArray {
    const heads: array<Entry>
    ghost var chains: seq<seq<Entry>>
    ghost var rows: seq<Bucket>

    ghost predicate NodeOk(b: nat, i: nat)
      requires b < |chains| == |rows| && i < |chains[b]| == |rows[b].slots|
      requires -1 <= rows[b].back < |chains[b]|
      reads this, chains[b][i]
    {
      var e := chains[b][i];
      && e.row == b && e.pos == i
      && Slot(e.occ, e.key, e.value) == rows[b].slots[i]
      && e.next == Target(chains[b], rows[b].back, i)
    }

    ghost predicate Framed()
      reads this, heads
    {
      && |chains| == |rows| == heads.Length
      && forall b :: 0 <= b < |chains| ==>
           && |chains[b]| == |rows[b].slots| && Shaped(rows[b])
           && heads[b] == chains[b][0]
    }

    /** The heap holds exactly `rows`. */
    ghost predicate Linked()
      reads this, heads, NodesOf(chains)
    {
      && Framed()
      && forall b, i {:trigger NodeOk(b, i)} :: 0 <= b < |chains| && 0 <= i < |chains[b]| ==>
           chains[b][i] in NodesOf(chains) && NodeOk(b, i)
    }

    constructor (n: nat)
      ensures Linked() && fresh(heads) && fresh(NodesOf(chains)) && heads.Length == n
      ensures rows == seq(n, _ => Bucket([VACANT], -1)) && Behind(chains) == {}
    {
      var e := new Entry(0, 0);
      var a := new Entry[n](_ => e);
      ghost var cs: seq<seq<Entry>> := [];
      for i := 0 to n
        invariant |cs| == i && fresh(a)
        invariant forall b :: 0 <= b < i ==> |cs[b]| == 1 && a[b] == cs[b][0] && fresh(a[b])
        invariant forall b :: 0 <= b < i ==>
          var x := a[b]; x.row == b && x.pos == 0 && !x.occ && x.key == Null && x.value == 0 && x.next == null
      {
        var x := new Entry(i, 0);
        a[i] := x;
        cs := cs + [[x]];
      }
      heads := a;
      chains := cs;
      rows := seq(n, _ => Bucket([VACANT], -1));
      new;
      forall b, i | 0 <= b < |chains| && 0 <= i < |chains[b]| ensures chains[b][i] in NodesOf(chains) && NodeOk(b, i) {
        assert chains[b][i] == heads[b];
      }
    }

    /** Overwrites node i of chain h, and links the chain's last node to it unless it is that node. */
    method Fill(row: Entry, parent: Entry, key: Key, value: Value, ghost h: nat, ghost i: nat)
      requires Linked() && h < |chains| && i < |chains[h]| && row == chains[h][i]
      requires parent == row || (parent == chains[h][|chains[h]| - 1] && rows[h].back == -1)
      modifies this`rows, row, parent
      ensures Linked()
      ensures rows == old(rows)[h := Bucket(old(rows)[h].slots[i := Slot(true, key, value)],
                                            if parent == row then old(rows)[h].back else i)]
      ensures chains == old(chains)
    {
      row.key := key;
      row.value := value;
      row.occ := true;
      assert parent == row || old(NodeOk(h, |chains[h]| - 1));
      if parent != row {
        parent.next := row;
      }
      rows := rows[h := Bucket(rows[h].slots[i := Slot(true, key, value)], if parent == row then rows[h].back else i)];
      assert old(NodeOk(h, i));
      assert Framed();
      forall b, j | 0 <= b < |chains| && 0 <= j < |chains[b]| ensures chains[b][j] in NodesOf(chains) && NodeOk(b, j) {
        assert old(NodeOk(b, j));
        assert chains[b][j] == row ==> b == h && j == i;
        assert chains[b][j] == parent && parent != row ==> b == h && j == |chains[h]| - 1;
      }
    }

    /** Clears node i of chain h in place; it stays linked. */
    method Vacate(row: Entry, ghost h: nat, ghost i: nat)
      requires Linked() && h < |chains| && i < |chains[h]| && row == chains[h][i]
      modifies this`rows, row
      ensures Linked()
      ensures rows == old(rows)[h := old(rows)[h].(slots := old(rows)[h].slots[i := VACANT])]
    {
      row.key := Null;
      row.value := 0;
      row.occ := false;
      rows := rows[h := rows[h].(slots := rows[h].slots[i := VACANT])];
      assert old(NodeOk(h, i));
      assert Framed();
      forall b, j | 0 <= b < |chains| && 0 <= j < |chains[b]| ensures chains[b][j] in NodesOf(chains) && NodeOk(b, j) {
        assert old(NodeOk(b, j));
        assert chains[b][j] == row ==> b == h && j == i;
      }
    }

    /** A zeroed node is allocated, filled in and linked behind the last node of a finite chain. */
    method Extend(parent: Entry, key: Key, value: Value, ghost h: nat) returns (row: Entry)
      requires Linked() && h < |chains| && parent == chains[h][|chains[h]| - 1] && rows[h].back == -1
      modifies this`chains, this`rows, parent
      ensures Linked() && fresh(row)
      ensures chains == old(chains)[h := old(chains)[h] + [row]]
      ensures rows == old(rows)[h := Bucket(old(rows)[h].slots + [Slot(true, key, value)], -1)]
      ensures NodesOf(chains) == old(NodesOf(chains)) + {row} && Behind(chains) == old(Behind(chains)) + {row}
    {
      ghost var n := |chains[h]|;
      assert NodeOk(h, n - 1);
      row := new Entry(h, n);
      row.key := key;
      row.value := value;
      row.occ := true;
      parent.next := row;
      chains := chains[h := chains[h] + [row]];
      rows := rows[h := Bucket(rows[h].slots + [Slot(true, key, value)], -1)];
      assert Framed();
      forall b, j | 0 <= b < |chains| && 0 <= j < |chains[b]| ensures chains[b][j] in NodesOf(chains) && NodeOk(b, j) {
        if b != h || j < n { assert old(NodeOk(b, j)); }
      }
      NodesExtended(old(chains), chains, h, row);
    }

    lemma {:induction false} NodesExtended(cs: seq<seq<Entry>>, cs': seq<seq<Entry>>, h: nat, row: Entry)
      requires h < |cs| && |cs[h]| > 0 && cs' == cs[h := cs[h] + [row]]
      ensures (set b, i | 0 <= b < |cs'| && 0 <= i < |cs'[b]| :: cs'[b][i]) ==
              (set b, i | 0 <= b < |cs| && 0 <= i < |cs[b]| :: cs[b][i]) + {row}
      ensures (set b, i | 0 <= b < |cs'| && 1 <= i < |cs'[b]| :: cs'[b][i] as object) ==
              (set b, i | 0 <= b < |cs| && 1 <= i < |cs[b]| :: cs[b][i] as object) + {row}
    {
      assert cs'[h][|cs[h]|] == row;
      forall b, i | 0 <= b < |cs| && 0 <= i < |cs[b]| ensures i < |cs'[b]| && cs'[b][i] == cs[b][i] {
      }
    }
  }

  class Hashmap {
    var size: int
    var nextSize: int
    var buckets: BucketArray
    const ops: KeyOps
    /** Everything allocated for this map and not yet freed: bucket arrays and chain nodes. */
    ghost var live: set<object>
    /** The entries `key_free` and `value_free` were called on, in order. */
    ghost var released: seq<Slot>

    constructor (ops: KeyOps)
      requires Lawful(ops)
      ensures this.ops == ops && fresh(live)
      ensures fresh(buckets) && fresh(buckets.heads) && fresh(NodesOf(buckets.chains))
      ensures Valid() && Model() == NewTable()
    {
      this.ops := ops;
      var a := new BucketArray(INITIAL_SIZE);
      buckets := a;
      size := 0;
      nextSize := NextSize(INITIAL_SIZE);
      live := {this, a.heads};
      released := [];
      new;
      NewTableInv(ops);
    }

    ghost function Model(): Table
      reads this, buckets
    {
      Table(buckets.rows, size, released)
    }

    /** The fields agree with the heap, and exactly the reachable allocations are live. */
    ghost predicate Linked()
      reads this, buckets, buckets.heads, NodesOf(buckets.chains)
    {
      && buckets.Linked() && buckets.heads.Length > 0
      && nextSize == NextSize(buckets.heads.Length)
      && live == {this, buckets.heads} + Behind(buckets.chains)
    }

    /** A map in good order: what every operation expects. */
    ghost predicate Valid()
      reads this, buckets, buckets.heads, NodesOf(buckets.chains)
    {
      Linked() && Lawful(ops) && Inv(ops, Model()) && Straight(Model())
    }

    /** `free`: each object once, and only what was allocated. */
    ghost method Free(x: object)
      requires x in live
      modifies this`live
      ensures live == old(live) - {x}
    {
      live := live - {x};
    }

    /** `nc_hashmap_insert_bucket`, wherever its walk ends: on a finite chain, or at the key's own entry. */
    method InsertBucket(a: BucketArray, hash: nat, key: Key, value: Value) returns (ret: int)
      requires a.Linked() && a.Framed() && a.heads.Length > 0
      requires key.Key?
      requires var r := a.rows[hash % a.heads.Length]; r.back == -1 || FindOwn(ops, r.slots, key) < |r.slots|
      modifies this`live, this`released, a, NodesOf(a.chains)
      ensures a.Linked() && fresh(NodesOf(a.chains) - old(NodesOf(a.chains)))
      ensures var h := hash % a.heads.Length; var s := old(a.rows)[h].slots; var i := FindOwn(ops, s, key);
              && a.rows == old(a.rows)[h := InsertInto(ops, old(a.rows)[h], key, value).0]
              && ret == InsertInto(ops, old(a.rows)[h], key, value).1
              && released == old(released) + (if i < |s| then [s[i]] else [])
      ensures old(Behind(a.chains)) <= Behind(a.chains)
      ensures live == old(live) + (Behind(a.chains) - old(Behind(a.chains)))
    {
      hide LastTomb, FindOwn, InsertInto, BucketArray.Linked;
      ghost var h, s := hash % a.heads.Length, a.rows[hash % a.heads.Length].slots;
      var row: Entry?, parent, own, i := FindPlace(a, hash, key);
      ghost var last := if own then i else |s| - 1;
      if i < |s| { SameNode(a, h, last, i); }
      InsertPlace(a.rows[h], key, value, i, last);
      if own {
        released := released + [s[i]];
        ret := 0;
      } else {
        ret := 1;
      }
      Store(a, row, parent, key, value, h, i);
    }

    /** Writes the entry into the node found, or into a new one behind the last. */
    method Store(a: BucketArray, found: Entry?, parent: Entry, key: Key, value: Value, ghost h: nat, ghost i: nat)
      requires a.Linked() && a.Framed() && h < |a.chains| && i <= |a.chains[h]| == |a.rows[h].slots|
      requires found == if i < |a.chains[h]| then a.chains[h][i] else null
      requires parent == found || (parent == a.chains[h][|a.chains[h]| - 1] && a.rows[h].back == -1)
      modifies this`live, a, NodesOf(a.chains)
      ensures a.Linked() && fresh(NodesOf(a.chains) - old(NodesOf(a.chains)))
      ensures var r, x := old(a.rows)[h], Slot(true, key, value);
              a.rows == old(a.rows)[h := if i == |r.slots| then Bucket(r.slots + [x], -1)
                                         else Bucket(r.slots[i := x], if parent == found then r.back else i)]
      ensures old(Behind(a.chains)) <= Behind(a.chains)
      ensures live == old(live) + (Behind(a.chains) - old(Behind(a.chains)))
    {
      hide BucketArray.Linked;
      var row := found;
      if row == null {
        row := a.Extend(parent, key, value, h);
        live := live + {row};
        assert row !in old(Behind(a.chains));
        assert Behind(a.chains) - old(Behind(a.chains)) == {row};
      } else {
        a.Fill(row, parent, key, value, h, i);
        assert Behind(a.chains) - old(Behind(a.chains)) == {};
      }
    }

    /** Nodes of a chain are told apart by their place. */
    lemma {:induction false} SameNode(a: BucketArray, h: nat, i: nat, j: nat)
      requires a.Linked() && h < |a.chains| && i < |a.chains[h]| && j < |a.chains[h]|
      ensures a.chains[h][i] == a.chains[h][j] <==> i == j
    {
      assert a.NodeOk(h, i) && a.NodeOk(h, j);
    }

    lemma {:induction false} InsertPlace(r: Bucket, k: Key, v: Value, i: nat, last: nat)
      requires |r.slots| > 0
      requires var own, tomb := FindOwn(ops, r.slots, k), LastTomb(r.slots);
               && (own < |r.slots| || r.back == -1)
               && i == (if own < |r.slots| then own else if tomb >= 0 then tomb else |r.slots|)
               && last == if own < |r.slots| then own else |r.slots| - 1
      ensures InsertInto(ops, r, k, v) ==
              (if i < |r.slots| then Bucket(r.slots[i := Slot(true, k, v)], if last == i then r.back else i)
               else Bucket(r.slots + [Slot(true, k, v)], -1),
               if FindOwn(ops, r.slots, k) < |r.slots| then 0 else 1)
    {
    }

    lemma {:induction false} TombNone(s: seq<Slot>)
      ensures LastTomb(s[..0]) == -1
    {
    }

    lemma {:induction false} TombNext(s: seq<Slot>, i: nat)
      requires i < |s|
      ensures LastTomb(s[..i + 1]) == if s[i].occ then LastTomb(s[..i]) else i
    {
      assert s[..i + 1][..i] == s[..i];
    }

    /** The walk of insertion: the entry to overwrite (the key's own one, else the last tombstone, else
        none), and the last node visited. */
    method FindPlace(a: BucketArray, hash: nat, key: Key)
      returns (row: Entry?, parent: Entry, canReplace: bool, ghost i: nat)
      requires a.Linked() && a.heads.Length > 0 && key.Key?
      requires var r := a.rows[hash % a.heads.Length]; r.back == -1 || FindOwn(ops, r.slots, key) < |r.slots|
      ensures var h := hash % a.heads.Length; var s := a.rows[h].slots; var nodes := a.chains[h];
              var own, tomb := FindOwn(ops, s, key), LastTomb(s);
              && i == (if own < |s| then own else if tomb >= 0 then tomb else |s|)
              && row == (if i < |s| then nodes[i] else null)
              && parent == nodes[if own < |s| then own else |s| - 1]
              && canReplace == (own < |s|)
    {
      hide LastTomb;
      ghost var h := hash % a.heads.Length;
      ghost var nodes, s := a.chains[h], a.rows[h].slots;
      TombNone(s);
      var head := a.heads[hash % a.heads.Length];
      row, parent := head, head;
      var tomb: Entry? := null;
      canReplace := false;
      i := 0;
      while row != null
        invariant i <= |s| && row == if i < |s| then nodes[i] else Target(nodes, a.rows[h].back, |s| - 1)
        invariant i > 0 ==> parent == nodes[i - 1]
        invariant tomb == if LastTomb(s[..i]) >= 0 then nodes[LastTomb(s[..i])] else null
        invariant forall j :: 0 <= j < i ==> !Own(ops, s[j], key)
        invariant !canReplace
        decreases |s| - i
      {
        assert a.NodeOk(h, i);
        TombNext(s, i);
        if !row.occ {
          tomb := row;
        }
        parent := row;
        if row.occ && row.key.Key? && row.key.addr == key.addr {
          if ops.compare(row.key, key) {
            canReplace := true;
            return;
          }
        }
        row := row.next;
        i := i + 1;
      }
      assert s[..|s|] == s;
      if tomb != null {
        row := tomb;
        i := LastTomb(s);
      }
    }

    // ---- Lookup ----

    /** The first node whose key compares equal. On a chain with a cycle this needs a match to stop at. */
    method GetEntry(key: Key) returns (row: Entry?, ghost i: nat)
      requires Linked() && key.Key?
      requires var r := buckets.rows[Home(ops, buckets.heads.Length, key)];
               r.back == -1 || FirstMatch(ops, r.slots, key) < |r.slots|
      ensures var h := Home(ops, buckets.heads.Length, key); var s := buckets.rows[h].slots;
              && i == FirstMatch(ops, s, key)
              && row == (if i < |s| then buckets.chains[h][i] else null)
    {
      ghost var h := Home(ops, buckets.heads.Length, key);
      ghost var s := buckets.rows[h].slots;
      row := buckets.heads[ops.hash(key) % buckets.heads.Length];
      i := 0;
      while row != null
        invariant i <= |s|
        invariant row == if i < |s| then buckets.chains[h][i]
                         else Target(buckets.chains[h], buckets.rows[h].back, |s| - 1)
        invariant forall j :: 0 <= j < i ==> !ops.compare(s[j].key, key)
        decreases |s| - i
      {
        assert buckets.NodeOk(h, i);
        if ops.compare(row.key, key) {
          return;
        }
        row := row.next;
        i := i + 1;
      }
    }

    /** `nc_hashmap_ensure_get`: also used by `get`, which answers null when there is no entry. */
    method EnsureGet(key: Key) returns (ok: bool, value: Value)
      requires Linked() && key.Key?
      requires var r := buckets.rows[Home(ops, buckets.heads.Length, key)];
               r.back == -1 || FirstMatch(ops, r.slots, key) < |r.slots|
      ensures ok == Tables.Get(ops, Model(), key).Some?
      ensures value == if ok then Tables.Get(ops, Model(), key).value else 0
    {
      var row, i := GetEntry(key);
      if row == null {
        return false, 0;
      }
      assert buckets.NodeOk(Home(ops, buckets.heads.Length, key), i);
      return true, row.value;
    }

    /** `nc_hashmap_contains` asks whether the value is non-null, so a key stored with a null value
        counts as missing. */
    method Contains(key: Key) returns (b: bool)
      requires Linked() && key.Key?
      requires var r := buckets.rows[Home(ops, buckets.heads.Length, key)];
               r.back == -1 || FirstMatch(ops, r.slots, key) < |r.slots|
      ensures b <==> exists v :: v != 0 && Tables.Get(ops, Model(), key) == Some(v)
    {
      var _, value := EnsureGet(key);
      b := value != 0;
    }

    lemma {:induction false} ValidHome(key: Key)
      requires Valid()
      ensures buckets.rows[Home(ops, buckets.heads.Length, key)].back == -1
    {
    }

    // ---- Removal ----

    /** `nc_hashmap_remove` (destructors run) and `nc_hashmap_steal` (they do not). */
    method RemoveInternal(key: Key, remove: bool) returns (ok: bool)
      requires Linked() && key.Key?
      requires var r := buckets.rows[Home(ops, buckets.heads.Length, key)];
               r.back == -1 || FirstMatch(ops, r.slots, key) < |r.slots|
      modifies this`size, this`released, buckets`rows, NodesOf(buckets.chains)
      ensures Linked()
      ensures Model() == old(Tables.Remove(ops, Model(), key, remove).0)
      ensures ok == old(Tables.Remove(ops, Model(), key, remove).1)
    {
      hide FirstMatch;
      ghost var h := Home(ops, buckets.heads.Length, key);
      var row, i := GetEntry(key);
      if row == null {
        return false;
      }
      ghost var x := buckets.rows[h].slots[i];
      released := released + if remove then [x] else [];
      size := size - 1;
      buckets.Vacate(row, h, i);
      return true;
    }

    /** On a map in good order, removal keeps it so. */
    method RemoveValid(key: Key, remove: bool) returns (ok: bool)
      requires Valid() && key.Key?
      modifies this`size, this`released, buckets`rows, NodesOf(buckets.chains)
      ensures Valid()
      ensures Model() == old(Tables.Remove(ops, Model(), key, remove).0)
      ensures ok == old(Tables.Remove(ops, Model(), key, remove).1)
    {
      RemoveKeeps(ops, Model(), key, remove);
      RemoveStraight(ops, Model(), key, remove);
      ValidHome(key);
      ok := RemoveInternal(key, remove);
    }

    // ---- Releasing ----

    /** `nc_hashmap_free_bucket` on a finite chain: destructors on the occupied entries when asked to,
        then every node but the inline head is freed. */
    method FreeBucket(a: BucketArray, b: nat, nuke: bool)
      requires a.Linked() && b < a.heads.Length && a.rows[b].back == -1
      requires BehindIn(a.chains[b], |a.chains[b]|) <= live
      modifies this`live, this`released
      ensures live == old(live) - BehindIn(a.chains[b], |a.chains[b]|)
      ensures released == old(released) + if nuke then Occupied(a.rows[b].slots) else []
    {
      hide Occupied;
      ghost var nodes, s := a.chains[b], a.rows[b].slots;
      OccupiedNone(s);
      var root := a.heads[b];
      var tmp: Entry? := root;
      ghost var j: nat := 0;
      assert BehindIn(a.chains[b], 0) == {};
      while tmp != null
        invariant j <= |s| && tmp == (if j < |s| then nodes[j] else null)
        invariant live == old(live) - BehindIn(a.chains[b], j)
        invariant released == old(released) + if nuke then Occupied(s[..j]) else []
        decreases |s| - j
      {
        assert a.NodeOk(b, j) && a.NodeOk(b, 0);
        var bk := tmp.next;
        OccupiedAppend(s[..j], s[j]);
        assert s[..j + 1] == s[..j] + [s[j]];
        if nuke && tmp.occ {
          released := released + [s[j]];
        }
        if tmp != root {
          NotYetFreed(a, b, j);
          assert BehindIn(a.chains[b], j + 1) == BehindIn(a.chains[b], j) + {tmp};
          Free(tmp);
        } else {
          assert BehindIn(a.chains[b], j + 1) == BehindIn(a.chains[b], j);
        }
        tmp := bk;
        j := j + 1;
      }
      assert s[..|s|] == s;
    }

    lemma {:induction false} NotYetFreed(a: BucketArray, b: nat, j: nat)
      requires a.Linked() && b < a.heads.Length && 1 <= j < |a.chains[b]|
      ensures a.chains[b][j] !in BehindIn(a.chains[b], j) && a.chains[b][j] in BehindIn(a.chains[b], |a.chains[b]|)
    {
      assert a.NodeOk(b, j);
      forall i | 1 <= i < j ensures a.chains[b][i] != a.chains[b][j] { assert a.NodeOk(b, i); }
    }

    /** Frees the nodes of every bucket of an array. */
    method FreeBuckets(a: BucketArray, nuke: bool)
      requires a.Linked() && a.Framed() && (forall b :: 0 <= b < |a.rows| ==> a.rows[b].back == -1)
      requires Behind(a.chains) <= live
      modifies this`live, this`released
      ensures live == old(live) - Behind(a.chains)
      ensures released == old(released) + if nuke then Entries(a.rows) else []
    {
      hide BucketArray.Linked, Entries, Occupied, BehindIn, BehindBelow;
      NotBehind(a);
      EntriesNone(a.rows);
      BehindNone(a.chains);
      for i := 0 to a.heads.Length
        invariant a.Linked()
        invariant live == old(live) - BehindBelow(a.chains, i)
        invariant released == old(released) + if nuke then Entries(a.rows[..i]) else []
      {
        BucketNotYetFreed(a, i);
        EntriesSlice(a.rows, i);
        FreeBucket(a, i, nuke);
      }
      assert a.rows[..|a.rows|] == a.rows;
    }

    lemma {:induction false} BehindNone(cs: seq<seq<Entry>>)
      ensures BehindBelow(cs, 0) == {}
    {
    }

    lemma {:induction false} BucketNotYetFreed(a: BucketArray, b: nat)
      requires a.Linked() && b < a.heads.Length
      ensures BehindIn(a.chains[b], |a.chains[b]|) !! BehindBelow(a.chains, b)
      ensures BehindIn(a.chains[b], |a.chains[b]|) <= Behind(a.chains)
      ensures BehindBelow(a.chains, b + 1) == BehindBelow(a.chains, b) + BehindIn(a.chains[b], |a.chains[b]|)
    {
      forall c, i, j | 0 <= c < b && 1 <= i < |a.chains[c]| && 1 <= j < |a.chains[b]|
        ensures a.chains[c][i] != a.chains[b][j]
      {
        assert a.NodeOk(c, i) && a.NodeOk(b, j);
      }
    }

    /** `nc_hashmap_free`: every stored entry is destroyed once, every allocation freed once, none left. */
    method FreeMap()
      requires Linked() && Straight(Model())
      modifies this`live, this`released
      ensures live == {}
      ensures released == old(released) + Entries(buckets.rows)
    {
      NotBehind(buckets);
      FreeBuckets(buckets, true);
      assert this !in Behind(buckets.chains);
      Free(buckets.heads);
      Free(this);
    }

    lemma {:induction false} NotBehind(a: BucketArray)
      ensures a.heads !in Behind(a.chains) && this !in Behind(a.chains)
      ensures forall e: object :: e in NodesOf(a.chains) ==> e != this
    {
    }

    // ---- Resize and put ----

    /** The first n entries of a list, in the buckets of a larger array. */
    ghost predicate Holding(a: BucketArray, es: seq<Slot>, n: nat)
      requires n <= |es|
      reads a, a.heads
    {
      a.heads.Length > 0 && a.rows == Spread(ops, a.heads.Length, es[..n])
    }

    /** One chain of the old array is walked and its occupied entries inserted into the new one. On a circle
        the walk meets an entry a second time and jumps to the failure label. */
    method MoveChain(src: BucketArray, a: BucketArray, b: nat,
                     ghost es: seq<Slot>, ghost n: nat, ghost rest: set<object>)
      returns (items: nat, failed: bool)
      requires src.Linked() && src.Framed() && b < src.heads.Length
      requires src.rows[b].back == -1 || Repeated(src.rows[b]) < |src.rows[b].slots|
      requires a.Linked() && a != src && NodesOf(a.chains) !! NodesOf(src.chains) && a.heads != src.heads
      requires n <= |es| && Occupied(src.rows[b].slots) <= es[n..]
      requires Lawful(ops) && (forall x :: x in es ==> x.occ) && Separate(multiset(es))
      requires Holding(a, es, n) && live == rest + Behind(a.chains)
      modifies this`live, this`released, a, NodesOf(a.chains)
      ensures src.Linked() && a.Linked() && fresh(NodesOf(a.chains) - old(NodesOf(a.chains)))
      ensures items == |Occupied(src.rows[b].slots)| && n + items <= |es| && Holding(a, es, n + items)
      ensures failed == (src.rows[b].back != -1)
      ensures released == old(released) + if failed then [src.rows[b].slots[Repeated(src.rows[b])]] else []
      ensures live == rest + Behind(a.chains)
    {
      hide Holding, BucketArray.Linked, Separate, Lawful, Occupied, BehindBelow, Repeated;
      ghost var nodes, r := src.chains[b], src.rows[b];
      ghost var s := r.slots;
      var entry: Entry? := src.heads[b];
      ghost var j: nat, p, lap := 0, n, false;
      OccupiedNone(s);
      items := 0;
      while entry != null
        invariant src.Linked() && a.Linked() && fresh(NodesOf(a.chains) - old(NodesOf(a.chains)))
        invariant j <= |s| && entry == (if j < |s| then nodes[j] else null) && (j == |s| ==> r.back == -1)
        invariant lap ==> 0 <= r.back <= j <= Repeated(r)
        invariant p == n + |Occupied(if lap then s else s[..j])| <= |es| && items == p - n
        invariant Holding(a, es, p)
        invariant released == old(released)
        invariant live == rest + Behind(a.chains)
        decreases if lap then 0 else 1, |s| - j
      {
        WhereInList(r, j, lap, es, n, p);
        var incr, again, next := MoveEntry(src, a, entry, b, j, es, p, rest);
        if again {
          return items, true;
        }
        entry := next;
        items := items + incr;
        p := p + incr;
        if j + 1 == |s| && r.back >= 0 {
          assert s[..|s|] == s;
          j, lap := r.back, true;
        } else {
          j := j + 1;
        }
      }
      assert s[..|s|] == s;
      failed := false;
    }

    /** The place of an entry in the list: the next one during the first walk over its chain; on the second
        lap, one of those before, and the first of them is the repeated one. */
    lemma {:induction false} WhereInList(r: Bucket, j: nat, lap: bool, es: seq<Slot>, n: nat, p: nat)
      requires j < |r.slots| && Shaped(r) && n <= |es| && Occupied(r.slots) <= es[n..]
      requires p == n + |Occupied(if lap then r.slots else r.slots[..j])|
      requires lap ==> 0 <= r.back <= j <= Repeated(r) < |r.slots|
      requires (forall x :: x in es ==> x.occ) && Separate(multiset(es))
      ensures p <= |es|
      ensures r.slots[j].occ && !lap ==> p < |es| && es[p] == r.slots[j] && r.slots[j] !in es[..p]
      ensures r.slots[j].occ && lap ==> r.slots[j] in es[..p] && j == Repeated(r)
      ensures lap && !r.slots[j].occ ==> j + 1 <= Repeated(r)
      ensures !lap ==> |Occupied(r.slots[..j + 1])| == |Occupied(r.slots[..j])| + if r.slots[j].occ then 1 else 0
    {
      hide Occupied;
      var s := r.slots;
      CountNext(s, j);
      if lap {
        if s[j].occ { WalkedEntry(s, j, es, n); }
      } else if s[j].occ {
        NextEntry(s, j, es, n);
        NotBefore(es, p);
      } else {
        OccupiedConcat(s[..j], s[j..]);
        assert s == s[..j] + s[j..];
      }
    }

    /** In a list without repetitions an entry is not among those before it. */
    lemma {:induction false} NotBefore(es: seq<Slot>, p: nat)
      requires p < |es| && Separate(multiset(es))
      ensures es[p] !in es[..p]
    {
      assert es == (es[..p] + [es[p]]) + es[p + 1..];
      assert multiset(es) == multiset(es[..p]) + multiset{es[p]} + multiset(es[p + 1..]);
      assert es[p] in multiset(es);
      assert es[p] in es[..p] <==> es[p] in multiset(es[..p]);
    }

    /** One entry of the old array: an occupied one, the next of the list, is inserted into the new array,
        which adds it; one that was inserted before is released and not added; others are skipped. */
    method MoveEntry(src: BucketArray, a: BucketArray, entry: Entry, ghost b: nat, ghost j: nat,
                     ghost es: seq<Slot>, ghost n: nat, ghost rest: set<object>)
      returns (incr: nat, again: bool, next: Entry?)
      requires src.Linked() && a.Linked()
      requires a != src && NodesOf(a.chains) !! NodesOf(src.chains) && a.heads != src.heads
      requires b < |src.chains| && j < |src.chains[b]| == |src.rows[b].slots| && entry == src.chains[b][j]
      requires -1 <= src.rows[b].back < |src.chains[b]| && n <= |es|
      requires var x := src.rows[b].slots[j]; x.occ && x !in es[..n] ==> n < |es| && es[n] == x
      requires Lawful(ops) && (forall x :: x in es ==> x.occ) && Separate(multiset(es))
      requires Holding(a, es, n) && live == rest + Behind(a.chains)
      modifies this`live, this`released, a, NodesOf(a.chains)
      ensures src.Linked() && a.Linked() && fresh(NodesOf(a.chains) - old(NodesOf(a.chains)))
      ensures next == Target(src.chains[b], src.rows[b].back, j)
      ensures again == (src.rows[b].slots[j].occ && src.rows[b].slots[j] in es[..n])
      ensures incr == (if src.rows[b].slots[j].occ && !again then 1 else 0) && Holding(a, es, n + incr)
      ensures released == old(released) + if again then [src.rows[b].slots[j]] else []
      ensures live == rest + Behind(a.chains)
    {
      hide Separate, Lawful, Holding, BehindBelow;
      NotBehind(src);
      assert src.NodeOk(b, j);
      incr, again := 0, false;
      next := entry.next;
      if entry.occ {
        var ret := InsertMoved(a, entry.key, entry.value, es, n, rest);
        if ret > 0 {
          incr := incr + ret;
        } else {
          again := true;
        }
      }
    }

    /** An entry inserted into the new array: 1 for the next of the list, 0 for one inserted before. */
    method InsertMoved(a: BucketArray, key: Key, value: Value, ghost es: seq<Slot>, ghost n: nat,
                       ghost rest: set<object>)
      returns (ret: int)
      requires a.Linked() && n <= |es|
      requires var x := Slot(true, key, value); x !in es[..n] ==> n < |es| && es[n] == x
      requires Lawful(ops) && (forall x :: x in es ==> x.occ) && Separate(multiset(es))
      requires Holding(a, es, n) && live == rest + Behind(a.chains)
      modifies this`live, this`released, a, NodesOf(a.chains)
      ensures a.Linked() && fresh(NodesOf(a.chains) - old(NodesOf(a.chains)))
      ensures ret == if Slot(true, key, value) in es[..n] then 0 else 1
      ensures Holding(a, es, n + ret) && live == rest + Behind(a.chains)
      ensures released == old(released) + if ret == 0 then [Slot(true, key, value)] else []
    {
      hide Separate, Lawful, Insert, InsertInto, FindOwn, LastTomb, Spread, Holding, BehindBelow, BucketArray.Linked;
      ghost var before := a.rows;
      ArrayFramed(a);
      HoldingMeaning(a, es, n);
      MoveStart(a, es, n, Slot(true, key, value));
      ret := InsertBucket(a, ops.hash(key), key, value);
      if ret > 0 {
        HoldingNext(a, es, n, before);
      } else {
        HoldingSame(a, es, n, before);
      }
    }

    lemma {:induction false} ArrayFramed(a: BucketArray)
      requires a.Linked()
      ensures a.Framed()
    {
    }

    /** What inserting an entry into the new array comes to. */
    lemma {:induction false} MoveStart(a: BucketArray, es: seq<Slot>, n: nat, x: Slot)
      requires n <= |es| && (x in es[..n] || (n < |es| && es[n] == x)) && Lawful(ops)
      requires (forall y :: y in es ==> y.occ) && Separate(multiset(es)) && Holding(a, es, n)
      ensures var h := Home(ops, a.heads.Length, x.key);
              && x.key.Key? && h < |a.rows| && a.rows[h].back == -1
              && var own := FindOwn(ops, a.rows[h].slots, x.key);
                 if x in es[..n]
                 then InsertInto(ops, a.rows[h], x.key, x.value) == (a.rows[h], 0)
                      && own < |a.rows[h].slots| && a.rows[h].slots[own] == x
                 else InsertInto(ops, a.rows[h], x.key, x.value) == (Insert(ops, a.rows[h].slots, x.key, x.value).0, 1)
                      && own == |a.rows[h].slots|
    {
      if x in es[..n] {
        PrefixSeparate(es, n);
        SpreadAgain(ops, a.heads.Length, es[..n], x);
      } else {
        MoveNext(a, es, n);
      }
    }

    lemma {:induction false} PrefixSeparate(es: seq<Slot>, n: nat)
      requires n <= |es| && (forall y :: y in es ==> y.occ) && Separate(multiset(es))
      ensures (forall y :: y in es[..n] ==> y.occ) && Separate(multiset(es[..n]))
    {
      var u, m := es[..n], multiset(es);
      assert es == u + es[n..];
      assert m == multiset(u) + multiset(es[n..]);
      forall y | y in multiset(u) ensures y in m && multiset(u)[y] == 1 { assert y in m; }
    }

    lemma {:induction false} HoldingSame(a: BucketArray, es: seq<Slot>, n: nat, before: seq<Bucket>)
      requires n <= |es| && a.heads.Length > 0 && before == Spread(ops, a.heads.Length, es[..n]) && a.rows == before
      ensures Holding(a, es, n)
    {
    }

    lemma {:induction false} MoveNext(a: BucketArray, es: seq<Slot>, n: nat)
      requires n < |es| && (forall x :: x in es ==> x.occ) && Separate(multiset(es)) && Holding(a, es, n)
      ensures var x := es[n]; var h := Home(ops, a.heads.Length, x.key);
              && x.key.Key? && h < |a.rows| && a.rows[h].back == -1
              && Insert(ops, a.rows[h].slots, x.key, x.value).1 == 1
              && FindOwn(ops, a.rows[h].slots, x.key) == |a.rows[h].slots|
    {
      MoveStep(es, n, a.heads.Length);
    }

    lemma {:induction false} HoldingNext(a: BucketArray, es: seq<Slot>, n: nat, before: seq<Bucket>)
      requires n < |es| && (forall x :: x in es ==> x.occ) && Separate(multiset(es)) && a.heads.Length > 0
      requires before == Spread(ops, a.heads.Length, es[..n])
      requires var x := es[n]; var h := Home(ops, a.heads.Length, x.key);
               a.rows == before[h := Insert(ops, before[h].slots, x.key, x.value).0]
      ensures Holding(a, es, n + 1)
    {
      MoveStep(es, n, a.heads.Length);
    }

    lemma {:induction false} HoldingMeaning(a: BucketArray, es: seq<Slot>, n: nat)
      requires n <= |es| && Holding(a, es, n)
      ensures a.heads.Length > 0 && a.rows == Spread(ops, a.heads.Length, es[..n])
    {
    }

    lemma {:induction false} MoveStep(es: seq<Slot>, n: nat, size: nat)
      requires n < |es| && (forall x :: x in es ==> x.occ) && Separate(multiset(es)) && size > 0
      ensures var x := es[n]; var rows := Spread(ops, size, es[..n]); var h := Home(ops, size, x.key);
              && x.key.Key? && rows[h].back == -1 && Insert(ops, rows[h].slots, x.key, x.value).1 == 1
              && FindOwn(ops, rows[h].slots, x.key) == |rows[h].slots|
              && Spread(ops, size, es[..n + 1]) == rows[h := Insert(ops, rows[h].slots, x.key, x.value).0]
    {
      var u, x := es[..n], es[n];
      assert es[..n + 1] == u + [x];
      assert es == (u + [x]) + es[n + 1..];
      assert Separate(multiset(u + [x])) by {
        var m := multiset(es);
        assert m == multiset(u + [x]) + multiset(es[n + 1..]);
        forall y | y in multiset(u + [x]) ensures y in m && multiset(u + [x])[y] == 1 { }
      }
      SeparatePrefix(u, x);
      SpreadInsert(ops, size, u, x);
    }

    /** Fills a new array with the entries of the old one, chain by chain, until a circle. */
    method MoveAll(src: BucketArray, a: BucketArray, ghost es: seq<Slot>, ghost rest: set<object>)
      returns (items: nat, failed: bool)
      requires src.Linked() && src.Framed() && ResizeEnds(src.rows)
      requires a.Linked() && a != src && NodesOf(a.chains) !! NodesOf(src.chains) && a.heads != src.heads
      requires es == Entries(src.rows) && Lawful(ops) && (forall x :: x in es ==> x.occ) && Separate(multiset(es))
      requires Holding(a, es, 0) && live == rest + Behind(a.chains)
      modifies this`live, this`released, a, NodesOf(a.chains)
      ensures src.Linked() && a.Linked() && fresh(NodesOf(a.chains) - old(NodesOf(a.chains)))
      ensures items == |MovedFirst(src.rows)| <= |es| && MovedFirst(src.rows) == es[..items] && Holding(a, es, items)
      ensures failed == (FirstCircle(src.rows) < |src.rows|)
      ensures released == old(released) + if failed then [Twice(src.rows)] else []
      ensures live == rest + Behind(a.chains)
    {
      hide Holding, BucketArray.Linked, Separate, Lawful, Occupied, Entries, Repeated, FirstCircle;
      items := 0;
      EntriesNone(src.rows);
      for i := 0 to src.heads.Length
        invariant src.Linked() && a.Linked() && fresh(NodesOf(a.chains) - old(NodesOf(a.chains)))
        invariant i <= FirstCircle(src.rows)
        invariant items == |Entries(src.rows[..i])| <= |es| && Holding(a, es, items)
        invariant released == old(released) && live == rest + Behind(a.chains)
      {
        EntriesSlice(src.rows, i);
        FirstIs(src.rows, i);
        var moved;
        moved, failed := MoveChain(src, a, i, es, items, rest);
        items := items + moved;
        if failed {
          return items, true;
        }
      }
      assert src.rows[..|src.rows|] == src.rows;
      failed := false;
    }

    lemma {:induction false} FirstIs(rows: seq<Bucket>, i: nat)
      requires i < |rows| && i <= FirstCircle(rows)
      ensures rows[i].back != -1 <==> FirstCircle(rows) == i
      ensures rows[i].back == -1 ==> i + 1 <= FirstCircle(rows)
    {
    }

    /** `nc_hashmap_resize`: a fourfold array takes over every entry; old nodes and old array are freed,
        no destructor runs. That fails exactly when there is a circle: then the new array is given up, with
        destructors on what it holds, and the old one stays. */
    method Resize() returns (ok: bool)
      requires Linked() && Lawful(ops) && Inv(ops, Model()) && ResizeEnds(buckets.rows)
      modifies this
      ensures ok == old(Straight(Model())) && Linked()
      ensures ok ==> fresh(buckets) && fresh(buckets.heads) && fresh(NodesOf(buckets.chains))
      ensures ok ==> Model() == old(Tables.Resize(ops, Model()))
      ensures !ok ==> buckets == old(buckets) && live == old(live)
      ensures !ok ==> Model() == old(ResizeFailed(ops, Model()))
    {
      ghost var es := Entries(buckets.rows);
      assert Separate(multiset(es)) && (forall x :: x in es ==> x.occ) by {
        assert multiset(es) == Bag(Model());
        forall x | x in es ensures x.occ { EntriesOccupied(buckets.rows, x); }
      }
      StraightExactly(buckets.rows);
      ok := Rehash(es);
    }

    method Rehash(ghost es: seq<Slot>) returns (ok: bool)
      requires Linked() && buckets.Framed() && ResizeEnds(buckets.rows)
      requires es == Entries(buckets.rows) && Lawful(ops) && (forall x :: x in es ==> x.occ) && Separate(multiset(es))
      modifies this
      ensures ok == (FirstCircle(old(buckets.rows)) == |old(buckets.rows)|) && Linked()
      ensures ok ==> fresh(buckets) && fresh(buckets.heads) && fresh(NodesOf(buckets.chains))
      ensures ok ==> Model() == Table(Spread(ops, INCREASE_FACTOR * |old(buckets.rows)|, es), |es|, old(released))
      ensures !ok ==> buckets == old(buckets) && live == old(live) && size == old(size)
      ensures !ok ==> released == old(released) + [Twice(buckets.rows)]
                                  + Entries(Spread(ops, INCREASE_FACTOR * |buckets.rows|, MovedFirst(buckets.rows)))
    {
      hide Separate, Lawful, Entries, Occupied, Share, Gathered, FirstCircle, Twice;
      var src := buckets;
      var newSize := src.heads.Length * INCREASE_FACTOR;
      var a, items, failed := Copy(src, newSize, es);
      NotBehind(src);
      NotBehind(a);
      StraightExactly(src.rows);
      if failed {
        SpreadStraight(newSize, MovedFirst(src.rows));
        FreeArray(a, true);
        return false;
      }
      FreeArray(src, false);
      buckets := a;
      size := items;
      nextSize := NextSize(newSize);
      ok := true;
    }

    /** Releases an array with its nodes. */
    method FreeArray(a: BucketArray, nuke: bool)
      requires a.Linked() && (forall b :: 0 <= b < |a.rows| ==> a.rows[b].back == -1)
      requires {a.heads} + Behind(a.chains) <= live
      modifies this`live, this`released
      ensures live == old(live) - Behind(a.chains) - {a.heads}
      ensures released == old(released) + if nuke then Entries(a.rows) else []
    {
      hide BucketArray.Linked, Entries, BehindBelow;
      ArrayFramed(a);
      NotBehind(a);
      FreeBuckets(a, nuke);
      Free(a.heads);
    }

    lemma {:induction false} SpreadStraight(n: nat, es: seq<Slot>)
      requires n > 0
      ensures forall b :: 0 <= b < n ==> Spread(ops, n, es)[b].back == -1
    {
    }

    lemma {:induction false} BehindDisjoint(a: BucketArray, c: BucketArray)
      requires NodesOf(a.chains) !! NodesOf(c.chains)
      ensures Behind(a.chains) !! Behind(c.chains)
    {
      forall x | x in Behind(a.chains) ensures x !in Behind(c.chains) {
        var e := x as Entry;
        assert e in NodesOf(a.chains);
      }
    }

    /** A new array holding the entries of the old one, up to the end of the first circle if there is one; the
        old one is left as it was. */
    method Copy(src: BucketArray, newSize: nat, ghost es: seq<Slot>)
      returns (a: BucketArray, items: nat, failed: bool)
      requires src.Linked() && src.Framed() && ResizeEnds(src.rows)
      requires es == Entries(src.rows) && Lawful(ops) && (forall x :: x in es ==> x.occ) && Separate(multiset(es))
      requires newSize > 0 && live == {this, src.heads} + Behind(src.chains)
      modifies this`live, this`released
      ensures fresh(a) && fresh(a.heads) && fresh(NodesOf(a.chains)) && a.heads.Length == newSize
      ensures Behind(a.chains) !! Behind(src.chains)
      ensures src.Linked() && a.Linked() && a.rows == Spread(ops, newSize, MovedFirst(src.rows))
      ensures items == |MovedFirst(src.rows)| && failed == (FirstCircle(src.rows) < |src.rows|)
      ensures released == old(released) + if failed then [Twice(src.rows)] else []
      ensures live == {this, src.heads, a.heads} + Behind(src.chains) + Behind(a.chains)
    {
      hide Separate, Lawful, Entries, Occupied, Share, Gathered, FirstCircle, MovedFirst, Twice;
      NotBehind(src);
      a := new BucketArray(newSize);
      live := live + {a.heads};
      EmptySpread(newSize);
      assert es[..0] == [];
      items, failed := MoveAll(src, a, es, {this, src.heads, a.heads} + Behind(src.chains));
      BehindDisjoint(a, src);
    }

    lemma {:induction false} EmptySpread(n: nat)
      requires n > 0
      ensures Spread(ops, n, []) == seq(n, _ => Bucket([VACANT], -1))
    {
      assert forall b :: 0 <= b < n ==> Gathered(Share(ops, n, b, [])) == Bucket([VACANT], -1);
    }

    /** `nc_hashmap_maybe_resize` and the resize it asks for. */
    method MakeRoom() returns (ok: bool)
      requires Linked() && Lawful(ops) && Inv(ops, Model()) && (PutRefused(Model()) ==> ResizeEnds(buckets.rows))
      modifies this
      ensures Linked() && ok == old(!PutRefused(Model()))
      ensures ok ==> Model() == old(Roomy(ops, Model()))
      ensures !ok ==> Model() == old(ResizeFailed(ops, Model()))
      ensures fresh(NodesOf(buckets.chains) - old(NodesOf(buckets.chains)))
      ensures buckets == old(buckets) || (fresh(buckets) && fresh(buckets.heads))
    {
      ok := true;
      if size >= nextSize {
        StraightExactly(buckets.rows);
        ok := Resize();
      }
    }

    /** Insertion into the current buckets, and the entry count. */
    method InsertCounted(key: Key, value: Value) returns (ok: bool)
      requires Linked() && key.Key?
      requires var r := buckets.rows[Home(ops, buckets.heads.Length, key)];
               r.back == -1 || FindOwn(ops, r.slots, key) < |r.slots|
      modifies this, buckets, NodesOf(buckets.chains)
      ensures Linked() && Model() == old(InsertAt(ops, Model(), key, value).0)
      ensures ok == old(InsertAt(ops, Model(), key, value).1 > 0)
      ensures fresh(NodesOf(buckets.chains) - old(NodesOf(buckets.chains))) && buckets == old(buckets)
    {
      hide Insert, InsertInto, FindOwn, InsertAt, BehindBelow;
      NotBehind(buckets);
      ghost var before := Model();
      var inc := InsertBucket(buckets, ops.hash(key), key, value);
      AtIs(before, key, value, buckets.rows, inc, released);
      if inc > 0 {
        size := size + inc;
        return true;
      } else {
        return false;
      }
    }

    lemma {:induction false} AtIs(t: Table, k: Key, v: Value, rows: seq<Bucket>, inc: int, freed: seq<Slot>)
      requires |t.rows| > 0
      requires var h := Home(ops, |t.rows|, k); var s := t.rows[h].slots; var i := FindOwn(ops, s, k);
               && rows == t.rows[h := InsertInto(ops, t.rows[h], k, v).0] && inc == InsertInto(ops, t.rows[h], k, v).1
               && freed == t.released + (if i < |s| then [s[i]] else [])
      ensures InsertAt(ops, t, k, v) == (Table(rows, t.size + inc, freed), inc) && 0 <= inc
    {
    }

    /** `nc_hashmap_put`: resizes first when full; false means that this failed, or that the key's address was
        already stored and its value was replaced. */
    method PutInternal(key: Key, value: Value) returns (ok: bool)
      requires Linked() && Lawful(ops) && Inv(ops, Model()) && PutEnds(ops, Model(), key) && key.Key?
      modifies this, buckets, NodesOf(buckets.chains)
      ensures Linked()
      ensures Model() == old(Tables.Put(ops, Model(), key, value).0)
      ensures ok == old(Tables.Put(ops, Model(), key, value).1)
      ensures fresh(NodesOf(buckets.chains) - old(NodesOf(buckets.chains)))
      ensures buckets == old(buckets) || (fresh(buckets) && fresh(buckets.heads))
    {
      hide Inv, Lawful, InsertAt, Roomy, ResizeFailed;
      var roomy := MakeRoom();
      if !roomy {
        return false;
      }
      ok := InsertCounted(key, value);
    }

    /** Any put that comes to an end. The map is in good order afterwards exactly when it was, and the bucket
        met the acyclicity condition. */
    method Put(key: Key, value: Value) returns (ok: bool)
      requires Linked() && Lawful(ops) && Inv(ops, Model()) && Coherent(Model(), key) && PutEnds(ops, Model(), key)
      modifies this, buckets, NodesOf(buckets.chains)
      ensures Linked() && Inv(ops, Model())
      ensures Model() == old(Tables.Put(ops, Model(), key, value).0)
      ensures ok == old(Tables.Put(ops, Model(), key, value).1)
      ensures Valid() <==> old(Valid() && KeepsFinite(ops, Model(), key))
      ensures fresh(NodesOf(buckets.chains) - old(NodesOf(buckets.chains)))
      ensures buckets == old(buckets) || (fresh(buckets) && fresh(buckets.heads))
    {
      hide Inv, Lawful, KeepsFinite, InsertAt, Roomy, PutEnds, ResizeFailed;
      PutKeeps(ops, Model(), key, value);
      PutFiniteExactly(ops, Model(), key, value);
      ok := PutInternal(key, value);
    }

    /** On a map in good order every put comes to an end. */
    lemma {:induction false} ValidPutEnds(key: Key)
      requires Valid()
      ensures PutEnds(ops, Model(), key) && !PutRefused(Model())
    {
      StraightPutEnds(ops, Model(), key);
    }
  }

  /** A key stored with a null value is there for `ensure_get`, and `contains` denies it. */
  method NullValueExample(ops: KeyOps, key: Key) returns (added: bool, found: bool, value: Value, contained: bool)
    requires Lawful(ops) && key.Key?
    ensures added && found && value == 0 && !contained
  {
    hide Hashmap.Linked, Inv, Straight, Put, KeepsFinite, Get, Lookup;
    FirstPut(ops, key, 0);
    var map0 := new Hashmap(ops);
    map0.ValidPutEnds(key);
    added := map0.Put(key, 0);
    map0.ValidHome(key);
    found, value := map0.EnsureGet(key);
    contained := map0.Contains(key);
  }

  lemma {:induction false} FirstPut(o: KeyOps, k: Key, v: Value)
    requires Lawful(o) && k.Key?
    ensures Coherent(NewTable(), k) && KeepsFinite(o, NewTable(), k)
    ensures Put(o, NewTable(), k, v).1 && |Put(o, NewTable(), k, v).0.rows| > 0
    ensures Get(o, Put(o, NewTable(), k, v).0, k) == Some(v)
  {
    hide Put, KeepsFinite, Clean;
    NewTableInv(o);
    NewTableClean();
    CleanPut(o, NewTable(), k, v);
    PutKeeps(o, NewTable(), k, v);
    PutLookup(o, NewTable(), k, v, k);
    if Lookup(o, NewTable(), k).Some? { GetMeaning(o, NewTable(), k); }
  }

  lemma NewTableClean()
    ensures Clean(NewTable())
  {
  }
}
