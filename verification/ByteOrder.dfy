/** Byte strings and the default key order, mdb_cmp_memn. */
module ByteOrder {

  newtype Byte = x: int | 0 <= x < 256
  type Bytes = seq<Byte>

  /** memcmp on the common length, then the shorter one first. */
  function Compare(a: Bytes, b: Bytes): (r: int)
    ensures -1 <= r <= 1
  {
    if a == [] then (if b == [] then 0 else -1)
    else if b == [] then 1
    else if a[0] < b[0] then -1
    else if b[0] < a[0] then 1
    else Compare(a[1..], b[1..])
  }

  predicate Lt(a: Bytes, b: Bytes) { Compare(a, b) < 0 }
  predicate Le(a: Bytes, b: Bytes) { Compare(a, b) <= 0 }

  lemma {:induction false} Equal(a: Bytes, b: Bytes)
    ensures Compare(a, b) == 0 <==> a == b
  {
    if a != [] && b != [] {
      Equal(a[1..], b[1..]);
      assert a == [a[0]] + a[1..] && b == [b[0]] + b[1..];
    }
  }

  lemma {:induction false} Antisymmetric(a: Bytes, b: Bytes)
    ensures Compare(a, b) == -Compare(b, a)
  {
    if a != [] && b != [] { Antisymmetric(a[1..], b[1..]); }
  }

  lemma {:induction false} Transitive(a: Bytes, b: Bytes, c: Bytes)
    ensures Le(a, b) && Le(b, c) ==> Le(a, c)
    ensures Le(a, b) && Lt(b, c) ==> Lt(a, c)
    ensures Lt(a, b) && Le(b, c) ==> Lt(a, c)
  {
    if a != [] && b != [] && c != [] { Transitive(a[1..], b[1..], c[1..]); }
  }

  lemma Trichotomy(a: Bytes, b: Bytes)
    ensures Lt(a, b) <==> !Le(b, a)
    ensures Le(a, b) <==> Lt(a, b) || a == b
  {
    Antisymmetric(a, b);
    Equal(a, b);
  }

  predicate HasPrefix(s: Bytes, p: Bytes) { |p| <= |s| && s[..|p|] == p }

  /** The strings with a given prefix are next to each other, from the prefix itself on. */
  lemma {:induction false} PrefixBlock(p: Bytes, a: Bytes, b: Bytes)
    requires HasPrefix(b, p) && Le(p, a) && Le(a, b)
    ensures HasPrefix(a, p)
  {
    if p != [] {
      assert a != [] && b != [];
      assert b[0] == b[..|p|][0] == p[0];
      assert b[1..][..|p| - 1] == p[1..] by { assert b[..|p|][1..] == b[1..][..|p| - 1]; }
      PrefixBlock(p[1..], a[1..], b[1..]);
      assert a[..|p|] == [a[0]] + a[1..][..|p| - 1];
      assert p == [p[0]] + p[1..];
    }
  }

  lemma {:induction false} PrefixLe(p: Bytes, s: Bytes)
    requires HasPrefix(s, p)
    ensures Le(p, s)
  {
    if p != [] {
      assert s[0] == s[..|p|][0] == p[0];
      assert s[1..][..|p| - 1] == p[1..] by { assert s[..|p|][1..] == s[1..][..|p| - 1]; }
      PrefixLe(p[1..], s[1..]);
    }
  }
}
