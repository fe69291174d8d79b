/** The daemon's duplicate suppression: a URL is refused for 600 seconds after it was first seen.
    First one call, then every interleaving of threads making such calls. */
module Dupes {
  import opened Keys
  import opened Chains
  import opened Tables
  import opened Histories
  import opened Hashmap
  import opened Words

  const TIMEOUT: nat := 600

  /** `time(NULL) - tm < 600` in unsigned arithmetic. */
  predicate Recent(now: int, tm: nat) {
    (now - tm) % U64 < TIMEOUT
  }

  // ---- What the cache is for: a map from URL text to the time it was first seen ----

  type Memory = map<string, nat>

  function Refused(seen: Memory, url: string, now: int): int {
    if url in seen && Recent(now, seen[url]) then 1 else 0
  }

  function Note(seen: Memory, url: string, now: int): Memory {
    if url in seen then seen else seen[url := Unsigned64(now)]
  }

  /** The table holds exactly the remembered URLs, each text once, and no tombstone but blank heads. */
  ghost predicate Remembers(t: Table, seen: Memory) {
    exists m :: Backed(t, m, seen)
  }

  ghost predicate Backed(t: Table, m: map<Key, Value>, seen: Memory) {
    Refines(StringOps(), t, m) && Clean(t) && Texts(m, seen)
  }

  ghost predicate Texts(m: map<Key, Value>, seen: Memory) {
    && (forall k: Key :: k in m ==> k.Key? && k.text in seen && seen[k.text] == m[k])
    && (forall s :: s in seen ==> HasText(m, s))
  }

  ghost predicate HasText(m: map<Key, Value>, s: string) {
    exists k: Key :: k in m && k.Key? && k.text == s
  }

  /** What strdup returns: an address not in use, holding the text. */
  ghost predicate Duplicate(t: Table, url: Key, dup: Key) {
    url.Key? && dup.Key? && dup.text == url.text && forall x :: x in Bag(t) && x.key.Key? ==> x.key.addr != dup.addr
  }

  lemma NewRemembers()
    ensures Remembers(NewTable(), map[])
  {
    NewTableInv(StringOps());
    assert Backed(NewTable(), map[], map[]);
  }

  /** A lookup by text: found exactly when remembered, with the time of the first sighting. */
  lemma {:induction false} LookupRemembers(t: Table, seen: Memory, url: Key)
    requires Remembers(t, seen) && url.Key? && |t.rows| > 0
    ensures Get(StringOps(), t, url) == if url.text in seen then Some(seen[url.text]) else None
  {
    hide Refines, Get;
    LibraryOpsAreLawful();
    var m :| Backed(t, m, seen);
    GetRefines(StringOps(), t, m, url);
    TextMatch(m, seen, url);
  }

  lemma {:induction false} TextMatch(m: map<Key, Value>, seen: Memory, url: Key)
    requires Texts(m, seen) && url.Key?
    ensures var a := Matching(StringOps(), m, url);
            && (a.Some? <==> url.text in seen)
            && (a.Some? ==> a.value in m && m[a.value] == seen[url.text])
  {
    if url.text in seen {
      assert HasText(m, url.text);
      var k: Key :| k in m && k.Key? && k.text == url.text;
      assert StringOps().compare(k, url);
    }
  }

  lemma {:induction false} TextsNote(m: map<Key, Value>, seen: Memory, dup: Key, tm: nat)
    requires Texts(m, seen) && dup.Key? && dup.text !in seen
    ensures Texts(m[dup := tm], seen[dup.text := tm])
  {
    var m', seen' := m[dup := tm], seen[dup.text := tm];
    forall s | s in seen' ensures HasText(m', s) {
      if s == dup.text {
        assert dup in m';
      } else {
        assert HasText(m, s);
        var k: Key :| k in m && k.Key? && k.text == s;
        assert k in m';
      }
    }
  }

  lemma {:induction false} FreshDuplicate(t: Table, m: map<Key, Value>, seen: Memory, url: Key, dup: Key, tm: nat)
    requires Backed(t, m, seen) && Duplicate(t, url, dup) && url.text !in seen
    ensures FreshOp(StringOps(), m, PutOp(dup, tm))
  {
    forall a | a in m ensures !StringOps().compare(a, dup) && (a.Key? ==> a.addr != dup.addr) {
      assert Slot(true, a, m[a]) in Bag(t);
    }
  }

  /** Storing a copy of an unseen URL: added, remembered, and the table stays free of tombstones. */
  lemma {:induction false} PutRemembers(t: Table, seen: Memory, url: Key, dup: Key, tm: nat)
    requires Remembers(t, seen) && url.Key? && url.text !in seen && Duplicate(t, url, dup) && |t.rows| > 0
    ensures var (t', added) := Put(StringOps(), t, dup, tm);
            added && Remembers(t', seen[url.text := tm]) && KeepsFinite(StringOps(), t, dup)
  {
    hide Refines, Put, KeepsFinite, Admissible, Clean;
    LibraryOpsAreLawful();
    var m :| Backed(t, m, seen);
    FreshDuplicate(t, m, seen, url, dup, tm);
    FreshStep(StringOps(), t, m, PutOp(dup, tm));
    PutRefines(StringOps(), t, m, dup, tm);
    CleanPut(StringOps(), t, dup, tm);
    TextsNote(m, seen, dup, tm);
    assert dup !in m;
    assert Backed(Put(StringOps(), t, dup, tm).0, m[dup := tm], seen[url.text := tm]);
  }

  lemma {:induction false} DuplicateCoherent(t: Table, seen: Memory, url: Key, dup: Key)
    requires Duplicate(t, url, dup) && Remembers(t, seen)
    ensures Coherent(t, dup) && url.Key? && dup.Key? && |t.rows| > 0
  {
    var m :| Backed(t, m, seen);
  }

  // ---- One call ----

  class Daemon {
    /** The global cache; created by the first call. */
    var hash: Hashmap?
    ghost var seen: Memory

    ghost function Footprint(): set<object>
      reads this, hash, if hash == null then {} else {hash.buckets}
    {
      if hash == null then {this}
      else {this, hash, hash.buckets, hash.buckets.heads} + NodesOf(hash.buckets.chains)
    }

    ghost predicate Valid()
      reads Footprint()
    {
      if hash == null then seen == map[] else hash.Valid() && hash.ops == StringOps() && Remembers(hash.Model(), seen)
    }

    constructor ()
      ensures Valid() && seen == map[]
    {
      hash := null;
      seen := map[];
    }

    /** `avoid_dupes`, entered with the mutex held: 1 exactly when the same text was first seen less
        than 600 seconds ago; the first sighting is never refreshed. */
    method AvoidDupes(url: Key, now: int, dup: Key) returns (retval: int)
      requires Valid() && Duplicate(if hash == null then NewTable() else hash.Model(), url, dup)
      modifies Footprint()
      ensures Valid() && fresh(Footprint() - old(Footprint()))
      ensures retval == Refused(old(seen), url.text, now)
      ensures retval == if url.text in old(seen) && (now - old(seen)[url.text]) % 0x1_0000_0000_0000_0000 < 600
                        then 1 else 0
      ensures seen == Note(old(seen), url.text, now)
    {
      hide Hashmap.Linked, Inv, Straight, Lawful, Remembers, Duplicate, Coherent, KeepsFinite, Tables.Put, Get, PutEnds,
        PutRefused;
      retval := 0;
      EnsureMap();
      DuplicateCoherent(hash.Model(), seen, url, dup);
      hash.ValidHome(url);
      LookupRemembers(hash.Model(), seen, url);
      var found, tm := hash.EnsureGet(url);
      if found {
        if Recent(now, tm) {
          retval := 1;
        }
      } else {
        PutRemembers(hash.Model(), seen, url, dup, Unsigned64(now));
        hash.ValidPutEnds(dup);
        var _ := hash.Put(dup, Unsigned64(now));
        seen := seen[url.text := Unsigned64(now)];
      }
    }

    method EnsureMap()
      requires Valid()
      modifies this`hash
      ensures hash != null && Valid() && hash.Model() == old(if hash == null then NewTable() else hash.Model())
      ensures hash == old(hash)
              || (fresh(hash) && fresh(hash.buckets) && fresh(hash.buckets.heads)
                  && fresh(NodesOf(hash.buckets.chains)))
    {
      hide Hashmap.Linked, Inv, Straight, Lawful, Remembers;
      if hash == null {
        LibraryOpsAreLawful();
        NewRemembers();
        hash := new Hashmap(StringOps());
      }
    }
  }
}
