/** The keys ObjectBox writes, and how the byte order sorts them. */
module ObKeys {
  import opened ByteOrder

  const KEY_SCHEMA: Byte := 0x00
  const KEY_RELATION: Byte := 0x08
  const KEY_DATA: Byte := 0x18
  const FORWARD := 0
  const UINT32 := 0x1_0000_0000
  type UInt32 = v: int | 0 <= v < UINT32

  function ReadUint32BE(p: Bytes): (v: int)
    requires |p| == 4
    ensures 0 <= v < UINT32
  {
    p[0] as int * 0x100_0000 + p[1] as int * 0x1_0000 + p[2] as int * 0x100 + p[3] as int
  }

  function WriteUint32BE(v: int): (p: Bytes)
    requires 0 <= v < UINT32
    ensures |p| == 4
  {
    [(v / 0x100_0000) as Byte, (v / 0x1_0000 % 0x100) as Byte, (v / 0x100 % 0x100) as Byte, (v % 0x100) as Byte]
  }

  lemma WriteRead(v: int)
    requires 0 <= v < UINT32
    ensures ReadUint32BE(WriteUint32BE(v)) == v
  {
    var a, b := v / 0x100, v / 0x1_0000;
    assert v == a * 0x100 + v % 0x100 && a == b * 0x100 + a % 0x100 && b == v / 0x100_0000 * 0x100 + b % 0x100;
  }

  lemma Digits(x: int, a: int, b: int)
    requires x == a * 0x100 + b && 0 <= b < 0x100
    ensures x / 0x100 == a && x % 0x100 == b
  {
  }

  lemma ReadWrite(p: Bytes)
    requires |p| == 4
    ensures WriteUint32BE(ReadUint32BE(p)) == p
  {
    var a, b, c, d := p[0] as int, p[1] as int, p[2] as int, p[3] as int;
    var v := ReadUint32BE(p);
    Digits(v, a * 0x1_0000 + b * 0x100 + c, d);
    Digits(v / 0x100, a * 0x100 + b, c);
    Digits(v / 0x1_0000, a, b);
    assert v / 0x1_0000 == v / 0x100 / 0x100 && v / 0x100_0000 == v / 0x1_0000 / 0x100;
    assert p == [p[0], p[1], p[2], p[3]];
  }

  /** A common start does not matter, and the numbers order as their bytes do. */
  lemma {:induction false} SamePrefix(p: Bytes, a: Bytes, b: Bytes)
    ensures Compare(p + a, p + b) == Compare(a, b)
  {
    if p == [] {
      assert p + a == a && p + b == b;
    } else {
      SamePrefix(p[1..], a, b);
      assert (p + a)[1..] == p[1..] + a && (p + b)[1..] == p[1..] + b;
    }
  }

  lemma Compare4(a: Bytes, b: Bytes)
    requires |a| == |b| == 4
    ensures Lt(a, b) <==>
            a[0] < b[0] || (a[0] == b[0] &&
              (a[1] < b[1] || (a[1] == b[1] && (a[2] < b[2] || (a[2] == b[2] && a[3] < b[3])))))
  {
    assert a == [a[0]] + ([a[1]] + ([a[2]] + [a[3]])) && b == [b[0]] + ([b[1]] + ([b[2]] + [b[3]]));
    Compare1(a);
    Compare1(b);
    assert Compare(a[1..], b[1..]) < 0 <==> a[1] < b[1] || (a[1] == b[1] && Compare(a[1..][1..], b[1..][1..]) < 0);
    assert Compare(a[1..][1..], b[1..][1..]) < 0 <==>
      a[2] < b[2] || (a[2] == b[2] && Compare(a[1..][1..][1..], b[1..][1..][1..]) < 0);
    assert Compare(a[1..][1..][1..][1..], b[1..][1..][1..][1..]) == 0;
  }

  lemma Compare1(a: Bytes)
    requires |a| == 4
    ensures a[1..] == [a[1], a[2], a[3]] && a[1..][1..] == [a[2], a[3]] && a[1..][1..][1..] == [a[3]]
    ensures a[1..][1..][1..][1..] == []
  {
  }

  lemma BigEndianOrder(a: Bytes, b: Bytes)
    requires |a| == |b| == 4
    ensures Lt(a, b) <==> ReadUint32BE(a) < ReadUint32BE(b)
  {
    Compare4(a, b);
  }

  // ---- relation keys ----

  /** The key of a link: direction 0 is forward. */
  function LinkKey(rel: int, dir: int, src: int, target: int): (k: Bytes)
    requires 0 <= rel < 64 && 0 <= dir < 4 && 0 <= src < UINT32 && 0 <= target < UINT32
    ensures |k| == 12
  {
    [KEY_RELATION, 0, 0, (rel * 4 + dir) as Byte] + WriteUint32BE(src) + WriteUint32BE(target)
  }

  /** What the reader looks for: the relation id times four, cut to a byte. */
  function Prefix(relationId: int, src: int): (p: Bytes)
    requires 0 <= src < UINT32
    ensures |p| == 8
  {
    [KEY_RELATION, 0, 0, (relationId * 4 % 256) as Byte] + WriteUint32BE(src)
  }

  /** Relation ids 64 apart look the same to the reader; otherwise the prefix is unique. */
  lemma PrefixAlias(r1: int, s1: int, r2: int, s2: int)
    requires 0 <= s1 < UINT32 && 0 <= s2 < UINT32
    ensures Prefix(r1, s1) == Prefix(r2, s2) <==> r1 % 64 == r2 % 64 && s1 == s2
  {
    Fours(r1);
    Fours(r2);
    var p, q := Prefix(r1, s1), Prefix(r2, s2);
    assert p[4..] == WriteUint32BE(s1) && q[4..] == WriteUint32BE(s2);
    WriteRead(s1);
    WriteRead(s2);
    assert p == p[..4] + p[4..] && q == q[..4] + q[4..];
  }

  lemma Fours(r: int)
    ensures r * 4 % 256 == r % 64 * 4
  {
    var q := r / 64;
    assert r == q * 64 + r % 64;
    assert r * 4 == q * 256 + r % 64 * 4;
  }

  /** Only the forward links of this relation and source have the prefix. */
  lemma PrefixOfLink(rel: int, src: int, rel': int, dir: int, src': int, target: int)
    requires 0 <= rel < 64 && 0 <= src < UINT32 && 0 <= rel' < 64 && 0 <= dir < 4 && 0 <= src' < UINT32
    requires 0 <= target < UINT32
    ensures HasPrefix(LinkKey(rel', dir, src', target), Prefix(rel, src)) <==>
            rel' == rel && dir == FORWARD && src' == src
    ensures LinkKey(rel, FORWARD, src, target) == Prefix(rel, src) + WriteUint32BE(target)
  {
    var k, p := LinkKey(rel', dir, src', target), Prefix(rel, src);
    WriteRead(src);
    WriteRead(src');
    assert k[..8] == [KEY_RELATION, 0, 0, (rel' * 4 + dir) as Byte] + WriteUint32BE(src');
    assert k[..8][4..] == WriteUint32BE(src') && p[4..] == WriteUint32BE(src);
    assert k[..8][3] == (rel' * 4 + dir) as Byte && p[3] == (rel * 4) as Byte;
    assert LinkKey(rel, FORWARD, src, target) == p + WriteUint32BE(target);
  }

  // ---- data keys ----

  /** The key of an object's entry. */
  function DataKey(entity: int, oid: int): (k: Bytes)
    requires 0 <= entity < 64 && 0 <= oid < UINT32
    ensures |k| == 8
  {
    [KEY_DATA, 0, 0, (entity * 4) as Byte] + WriteUint32BE(oid)
  }

  /** Data keys sort by entity, then by object. */
  lemma DataKeyOrder(e1: int, o1: int, e2: int, o2: int)
    requires 0 <= e1 < 64 && 0 <= e2 < 64 && 0 <= o1 < UINT32 && 0 <= o2 < UINT32
    ensures Lt(DataKey(e1, o1), DataKey(e2, o2)) <==> e1 < e2 || (e1 == e2 && o1 < o2)
  {
    var p: Bytes := [KEY_DATA, 0, 0];
    var b1: Bytes, b2: Bytes := [(e1 * 4) as Byte], [(e2 * 4) as Byte];
    var w1, w2 := WriteUint32BE(o1), WriteUint32BE(o2);
    assert DataKey(e1, o1) == p + (b1 + w1) && DataKey(e2, o2) == p + (b2 + w2);
    SamePrefix(p, b1 + w1, b2 + w2);
    WriteRead(o1);
    WriteRead(o2);
    BigEndianOrder(w1, w2);
    if e1 == e2 { SamePrefix(b1, w1, w2); }
  }

  /** A data key is read back as its entity and object. */
  lemma DataKeyRead(entity: int, oid: int)
    requires 0 <= entity < 64 && 0 <= oid < UINT32
    ensures var k := DataKey(entity, oid);
            && k[..1] == [KEY_DATA] && entity * 4 == k[3] as int && k[4..] == WriteUint32BE(oid)
            && ReadUint32BE(k[4..]) == oid
  {
    WriteRead(oid);
  }
}
