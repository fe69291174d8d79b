/** Keys of the hash map: an address together with the text stored there, and the
    two hash/compare pairs that the library ships. */
module Keys {
  /** A `const void *` key. `Null` is the null pointer; a non-null pointer is its address
      together with the NUL-terminated text it points to. */
  datatype Key = Null | Key(addr: nat, text: string)

  /** The two function pointers a map is created with. */
  datatype KeyOps = KeyOps(hash: Key -> nat, compare: (Key, Key) -> bool)

  /** What the map needs of its function pointers, on the non-null keys it is given. */
  ghost predicate Lawful(o: KeyOps) {
    && (forall a: Key :: a.Key? ==> o.compare(a, a) && !o.compare(Null, a))
    && (forall a: Key, b: Key :: o.compare(a, b) ==> o.compare(b, a) && o.hash(a) == o.hash(b))
    && (forall a: Key, b: Key, c: Key :: o.compare(a, b) && o.compare(b, c) ==> o.compare(a, c))
  }

  const WORD: nat := 0x1_0000_0000

  /** A `signed char` read from a byte. */
  function SignedChar(c: char): int {
    var b := c as int % 256;
    if b < 128 then b else b - 256
  }

  /** The hash as a polynomial over unbounded integers: no wrap-around at all. */
  function HashPoly(s: string): int {
    if s == [] then 5381 else HashPoly(s[..|s| - 1]) * 33 + SignedChar(s[|s| - 1])
  }

  /** The 32-bit loop: shift, add and the sign-extended character all wrap. */
  method StringHashLoop(s: string) returns (hash: nat)
    ensures hash == HashPoly(s) % WORD
  {
    hash := 5381;
    for i := 0 to |s|
      invariant hash == HashPoly(s[..i]) % WORD
    {
      assert s[..i + 1][..i] == s[..i];
      WrapStep(HashPoly(s[..i]), SignedChar(s[i]));
      hash := (hash * 32 % WORD + hash + SignedChar(s[i]) % WORD) % WORD;
    }
    assert s[..|s|] == s;
  }

  lemma {:induction false} HashNext(s: string, c: char, t: string)
    requires t == s + [c]
    ensures HashPoly(t) == HashPoly(s) * 33 + SignedChar(c)
  {
    assert t[..|s|] == s;
  }

  /** The hash of a text that wraps around, the one of a byte above 127, and an address of more than 32 bits. */
  lemma HashExamples()
    ensures StringOps().hash(Key(1, "a/b.tar")) == 2738597196
    ensures StringOps().hash(Key(1, [233 as char])) == 177550
    ensures AddressOps().hash(Key(0x1_8000_0005, "")) == 0x8000_0005
    ensures AddressOps().compare(Null, Null) && !StringOps().compare(Null, Null)
  {
    PathHash();
    ByteHash();
  }

  lemma EmptyHash()
    ensures HashPoly("") == 5381
  {
  }

  lemma PathHash()
    ensures HashPoly("a/b.tar") == 229457071418700
  {
    hide HashPoly;
    EmptyHash();
    HashNext("", 'a', "a");
    HashNext("a", '/', "a/");
    HashNext("a/", 'b', "a/b");
    HashNext("a/b", '.', "a/b.");
    HashNext("a/b.", 't', "a/b.t");
    HashNext("a/b.t", 'a', "a/b.ta");
    HashNext("a/b.ta", 'r', "a/b.tar");
  }

  lemma ByteHash()
    ensures HashPoly([233 as char]) == 177550
  {
    hide HashPoly;
    EmptyHash();
    HashNext("", 233 as char, [233 as char]);
  }

  /** One step of the loop commutes with reduction modulo 2^32. */
  lemma {:induction false} WrapStep(p: int, c: int)
    ensures (p % WORD * 32 % WORD + p % WORD + c % WORD) % WORD == (p * 33 + c) % WORD
  {
    var q, h := p / WORD, p % WORD;
    var d, e := h * 32 / WORD, c / WORD;
    assert p * 33 + c == (h * 32 % WORD + h + c % WORD) + WORD * (33 * q + d + e);
    ModShift(h * 32 % WORD + h + c % WORD, 33 * q + d + e);
  }

  lemma {:induction false} ModShift(x: int, k: int)
    ensures (x + WORD * k) % WORD == x % WORD
  {
    var q, r := x / WORD, x % WORD;
    assert x + WORD * k == WORD * (q + k) + r;
  }

  /** `nc_string_hash` / `nc_string_compare`; neither is ever called on a null key to be hashed. */
  function StringOps(): KeyOps {
    KeyOps(
      (k: Key) => if k.Key? then HashPoly(k.text) % WORD else 0,
      (l: Key, r: Key) => l.Key? && r.Key? && l.text == r.text)
  }

  /** `nc_simple_hash` truncates the pointer to 32 bits, `nc_simple_compare` is pointer equality. */
  function AddressOps(): KeyOps {
    KeyOps(
      (k: Key) => if k.Key? then k.addr % WORD else 0,
      (l: Key, r: Key) => (l.Null? && r.Null?) || (l.Key? && r.Key? && l.addr == r.addr))
  }

  lemma LibraryOpsAreLawful()
    ensures Lawful(StringOps())
    ensures Lawful(AddressOps())
  {
    var s, a := StringOps(), AddressOps();
    assert Lawful(s);
    assert Lawful(a);
  }
}
