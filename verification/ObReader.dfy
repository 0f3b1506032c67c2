/** LmdbReader: the walk over the objects of a store, and the targets of a to-many relation. */
module ObReader {
  import opened ByteOrder
  import SlottedPage
  import opened PageNodes
  import opened BTree
  import opened CursorSearch
  import opened Cursors
  import opened ObKeys

  // ---- to-many targets ----

  predicate IsHit(k: Bytes, prefix: Bytes) { |k| == |prefix| + 4 && HasPrefix(k, prefix) }

  function TargetOf(k: Bytes): int
    requires |k| == 12
  {
    ReadUint32BE(k[8..])
  }

  /** The targets of the hits from place r on, up to the first other key. */
  function Hits(all: seq<Node>, prefix: Bytes, r: int): (out: seq<int>)
    requires |prefix| == 8 && 0 <= r <= |all|
    decreases |all| - r
  {
    if r < |all| && IsHit(all[r].key, prefix) then [TargetOf(all[r].key)] + Hits(all, prefix, r + 1) else []
  }

  lemma HitParts(k: Bytes, prefix: Bytes)
    requires IsHit(k, prefix) && |prefix| == 8
    ensures |k| == 12 && k == prefix + k[8..]
  {
  }

  /** One more hit, or the end of them. */
  lemma HitsNext(all: seq<Node>, prefix: Bytes, r: int, targets: seq<int>)
    requires |prefix| == 8 && 0 <= r && r + |targets| < |all|
    requires Hits(all, prefix, r) == targets + Hits(all, prefix, r + |targets|)
    ensures var k := all[r + |targets|].key;
            if IsHit(k, prefix) then
              var more := targets + [TargetOf(k)]; Hits(all, prefix, r) == more + Hits(all, prefix, r + |more|)
            else Hits(all, prefix, r) == targets
  {
    assert targets + [] == targets;
  }

  lemma HitsEnd(all: seq<Node>, prefix: Bytes, r: int, targets: seq<int>)
    requires |prefix| == 8 && 0 <= r && r + |targets| == |all|
    requires Hits(all, prefix, r) == targets + Hits(all, prefix, r + |targets|)
    ensures Hits(all, prefix, r) == targets
  {
    assert targets + [] == targets;
  }

  lemma {:induction false} HitsAre(all: seq<Node>, prefix: Bytes, r: int)
    requires |prefix| == 8 && 0 <= r <= |all|
    ensures HitsFrom(all, prefix, r, Hits(all, prefix, r))
    decreases |all| - r
  {
    if r < |all| && IsHit(all[r].key, prefix) {
      HitsAre(all, prefix, r + 1);
      HitsPrepend(all, prefix, r, Hits(all, prefix, r), Hits(all, prefix, r + 1));
    }
  }

  /** Place k holds a hit with target t. */
  predicate HitAt(all: seq<Node>, prefix: Bytes, k: int, t: int) {
    0 <= k < |all| && |prefix| == 8 && IsHit(all[k].key, prefix) && t == TargetOf(all[k].key)
  }

  /** h are the targets of the keys from place r on, all of them hits, and no hit follows. */
  ghost predicate HitsFrom(all: seq<Node>, prefix: Bytes, r: int, h: seq<int>) {
    && |prefix| == 8 && 0 <= r && r + |h| <= |all|
    && (forall i, k :: 0 <= i < |h| && k == r + i ==> HitAt(all, prefix, k, h[i]))
    && (r + |h| < |all| ==> !IsHit(all[r + |h|].key, prefix))
  }

  lemma HitsPrepend(all: seq<Node>, prefix: Bytes, r: int, h: seq<int>, rest: seq<int>)
    requires HitsFrom(all, prefix, r + 1, rest) && 0 <= r < |all| && IsHit(all[r].key, prefix)
    requires h == [TargetOf(all[r].key)] + rest
    ensures HitsFrom(all, prefix, r, h)
  {
    forall i, k | 0 <= i < |h| && k == r + i ensures HitAt(all, prefix, k, h[i]) {
      if 0 < i {
        var i' := i - 1;
        assert HitAt(all, prefix, k, rest[i']);
      }
    }
  }

  /** Seek to the first possible link, and walk on while the prefix matches. */
  method ReadTargets(root: Tree, ghost d: nat, relationId: int, source: int) returns (targets: seq<int>, ghost r: int)
    requires Weak(root, d) && Sorted(InOrder(root)) && d < CURSOR_STACK && 0 <= source < UINT32
    ensures IsBound(InOrder(root), Prefix(relationId, source) + [0, 0, 0, 0], r)
    ensures targets == Hits(InOrder(root), Prefix(relationId, source), r)
  {
    hide InOrder, Sorted, Weak, IsBound, HasPrefix, Hits;
    var prefix := Prefix(relationId, source);
    var searchKey := prefix + [0, 0, 0, 0];
    ghost var all := InOrder(root);
    var c := new Cursor(root, d);
    targets := [];
    var rc := c.Set(searchKey, true);
    r := if rc == SUCCESS then c.Pos() else |all|;
    while rc == SUCCESS
      invariant c.Valid() && c.root == root && 0 <= r && r + |targets| <= |all|
      invariant rc == SUCCESS ==> c.Settled() && c.Pos() == r + |targets|
      invariant rc != SUCCESS ==> r + |targets| == |all|
      invariant Hits(all, prefix, r) == targets + Hits(all, prefix, r + |targets|)
      decreases |all| - |targets|, rc == SUCCESS
    {
      var e := c.Current();
      HitsNext(all, prefix, r, targets);
      if |e.key| != |searchKey| || !HasPrefix(e.key, prefix) { return; }
      targets := targets + [ReadUint32BE(e.key[8..])];
      rc, e := c.Next();
    }
    HitsEnd(all, prefix, r, targets);
  }

  // ---- which targets those are ----

  ghost predicate HasKey(all: seq<Node>, k: Bytes) { exists i :: 0 <= i < |all| && all[i].key == k }

  /** No key with the prefix stands in the way of a later hit with the wrong length. */
  ghost predicate Unbroken(all: seq<Node>, prefix: Bytes, r: int) {
    forall i, j :: 0 <= r <= i < j < |all| && IsHit(all[j].key, prefix) && HasPrefix(all[i].key, prefix) ==>
      |all[i].key| == |prefix| + 4
  }

  /** Keys between the search key and a hit have the prefix too. */
  lemma BetweenHits(all: seq<Node>, prefix: Bytes, r: int, i: int, j: int)
    requires Sorted(all) && IsBound(all, prefix + [0, 0, 0, 0], r) && |prefix| == 8 && r <= i < j < |all|
    requires IsHit(all[j].key, prefix)
    ensures HasPrefix(all[i].key, prefix)
  {
    var s := prefix + [0, 0, 0, 0];
    assert s[..8] == prefix;
    PrefixLe(prefix, s);
    assert Le(s, all[i].key) && Lt(all[i].key, all[j].key);
    Transitive(prefix, s, all[i].key);
    PrefixBlock(prefix, all[i].key, all[j].key);
  }

  /** Every hit is at the search key or behind it. */
  lemma HitBehind(all: seq<Node>, prefix: Bytes, r: int, j: int)
    requires Sorted(all) && IsBound(all, prefix + [0, 0, 0, 0], r) && |prefix| == 8 && 0 <= j < |all|
    requires IsHit(all[j].key, prefix)
    ensures r <= j
  {
    var s, k := prefix + [0, 0, 0, 0], all[j].key;
    assert k == prefix + k[8..];
    SamePrefix(prefix, [0, 0, 0, 0], k[8..]);
    BigEndianOrder(k[8..], [0, 0, 0, 0]);
    SamePrefix(prefix, k[8..], [0, 0, 0, 0]);
    assert !Lt(k, s);
  }

  /** The reader finds all links of the relation and source exactly when no key with their
      prefix and another length is in the way. */
  lemma FindsAllIff(all: seq<Node>, prefix: Bytes, r: int)
    requires Sorted(all) && |prefix| == 8 && IsBound(all, prefix + [0, 0, 0, 0], r)
    ensures Unbroken(all, prefix, r) <==>
            forall j :: 0 <= j < |all| && IsHit(all[j].key, prefix) ==> r <= j < r + |Hits(all, prefix, r)|
  {
    HitsAre(all, prefix, r);
    var n := |Hits(all, prefix, r)|;
    if Unbroken(all, prefix, r) {
      forall j | 0 <= j < |all| && IsHit(all[j].key, prefix) ensures r <= j < r + n {
        HitBehind(all, prefix, r, j);
        if r + n < j {
          BetweenHits(all, prefix, r, r + n, j);
        }
      }
    }
    if forall j :: 0 <= j < |all| && IsHit(all[j].key, prefix) ==> r <= j < r + n {
      forall i, j | 0 <= r <= i < j < |all| && IsHit(all[j].key, prefix) && HasPrefix(all[i].key, prefix)
        ensures |all[i].key| == |prefix| + 4
      {
        var m := i - r;
        assert j < r + n && m < n;
        assert HitAt(all, prefix, i, Hits(all, prefix, r)[m]);
      }
    }
  }

  /** The targets come in ascending order, without repeats. */
  lemma HitsAscend(all: seq<Node>, prefix: Bytes, r: int)
    requires Sorted(all) && |prefix| == 8 && 0 <= r <= |all|
    ensures var h := Hits(all, prefix, r); forall i, j :: 0 <= i < j < |h| ==> h[i] < h[j]
  {
    HitsAre(all, prefix, r);
    var h := Hits(all, prefix, r);
    forall i, j | 0 <= i < j < |h| ensures h[i] < h[j] {
      var a, b := all[r + i].key, all[r + j].key;
      assert HitAt(all, prefix, r + i, h[i]) && HitAt(all, prefix, r + j, h[j]);
      assert Lt(all[r + i].key, all[r + j].key);
      HitParts(a, prefix);
      HitParts(b, prefix);
      SamePrefix(prefix, a[8..], b[8..]);
      BigEndianOrder(a[8..], b[8..]);
    }
  }

  /** All relation keys are links, as ObjectBox writes them. */
  ghost predicate LinksOk(all: seq<Node>) {
    forall i :: 0 <= i < |all| && HasPrefix(all[i].key, [KEY_RELATION]) ==> IsLink(all[i].key)
  }

  ghost predicate IsLink(k: Bytes) {
    exists rel, dir, src, target ::
      0 <= rel < 64 && 0 <= dir < 4 && 0 <= src < UINT32 && 0 <= target < UINT32 && k == LinkKey(rel, dir, src, target)
  }

  /** On such a store the reader returns exactly the targets linked forward from the source:
      no backward link, other relation or other source leaks in, and none is missed. */
  lemma TargetsExact(all: seq<Node>, rel: int, src: int, r: int)
    requires Sorted(all) && LinksOk(all) && 0 <= rel < 64 && 0 <= src < UINT32
    requires IsBound(all, Prefix(rel, src) + [0, 0, 0, 0], r)
    ensures forall t :: 0 <= t < UINT32 ==>
            (t in Hits(all, Prefix(rel, src), r) <==> HasKey(all, LinkKey(rel, FORWARD, src, t)))
    ensures forall t :: t in Hits(all, Prefix(rel, src), r) ==> 0 <= t < UINT32
  {
    var prefix := Prefix(rel, src);
    var h := Hits(all, prefix, r);
    HitsAre(all, prefix, r);
    LinksUnbroken(all, rel, src, r);
    FindsAllIff(all, prefix, r);
    hide Hits, HasKey, HasPrefix, IsHit, HitsFrom, Unbroken, Sorted, IsBound, LinksOk;
    forall t | 0 <= t < UINT32 && t in h ensures HasKey(all, LinkKey(rel, FORWARD, src, t)) {
      HitLinked(all, rel, src, r, h, t);
    }
    forall t | 0 <= t < UINT32 && HasKey(all, LinkKey(rel, FORWARD, src, t)) ensures t in h {
      LinkHit(all, rel, src, r, h, t);
    }
    forall t | t in h ensures 0 <= t < UINT32 { HitRange(all, prefix, r, h, t); }
  }

  lemma HitRange(all: seq<Node>, prefix: Bytes, r: int, h: seq<int>, t: int)
    requires HitsFrom(all, prefix, r, h) && t in h
    ensures 0 <= t < UINT32
  {
    var i :| 0 <= i < |h| && h[i] == t;
    var k := r + i;
    assert HitAt(all, prefix, k, h[i]);
  }

  lemma HitLinked(all: seq<Node>, rel: int, src: int, r: int, h: seq<int>, t: int)
    requires 0 <= rel < 64 && 0 <= src < UINT32 && 0 <= t < UINT32 && HitsFrom(all, Prefix(rel, src), r, h) && t in h
    ensures HasKey(all, LinkKey(rel, FORWARD, src, t))
  {
    var prefix := Prefix(rel, src);
    PrefixOfLink(rel, src, rel, FORWARD, src, t);
    var i :| 0 <= i < |h| && h[i] == t;
    var k := r + i;
    assert HitAt(all, prefix, k, h[i]);
    HitParts(all[k].key, prefix);
    ReadWrite(all[k].key[8..]);
    assert all[k].key == LinkKey(rel, FORWARD, src, t);
  }

  lemma LinkHit(all: seq<Node>, rel: int, src: int, r: int, h: seq<int>, t: int)
    requires 0 <= rel < 64 && 0 <= src < UINT32 && 0 <= t < UINT32 && HitsFrom(all, Prefix(rel, src), r, h)
    requires HasKey(all, LinkKey(rel, FORWARD, src, t))
    requires forall j :: 0 <= j < |all| && IsHit(all[j].key, Prefix(rel, src)) ==> r <= j < r + |h|
    ensures t in h
  {
    var prefix := Prefix(rel, src);
    PrefixOfLink(rel, src, rel, FORWARD, src, t);
    var k := prefix + WriteUint32BE(t);
    assert k[..8] == prefix && k[8..] == WriteUint32BE(t);
    WriteRead(t);
    var j :| 0 <= j < |all| && all[j].key == k;
    assert IsHit(all[j].key, prefix);
    var i := j - r;
    assert HitAt(all, prefix, j, h[i]);
  }

  lemma LinksUnbroken(all: seq<Node>, rel: int, src: int, r: int)
    requires LinksOk(all) && 0 <= rel < 64 && 0 <= src < UINT32
    ensures Unbroken(all, Prefix(rel, src), r)
  {
    var prefix := Prefix(rel, src);
    forall i, j | 0 <= r <= i < j < |all| && IsHit(all[j].key, prefix) && HasPrefix(all[i].key, prefix)
      ensures |all[i].key| == |prefix| + 4
    {
      var k := all[i].key;
      assert k[..1] == k[..8][..1] == [KEY_RELATION];
      assert IsLink(k);
    }
  }

  /** The first place with a key not below `key`, from place i on. */
  function BoundFrom(all: seq<Node>, key: Bytes, i: int): (r: int)
    requires 0 <= i <= |all|
    ensures i <= r <= |all|
    decreases |all| - i
  {
    if i < |all| && Lt(all[i].key, key) then BoundFrom(all, key, i + 1) else i
  }

  lemma {:induction false} BoundIs(all: seq<Node>, key: Bytes, r: int, i: int)
    requires IsBound(all, key, r) && 0 <= i <= r
    ensures BoundFrom(all, key, i) == r
    decreases r - i
  {
    if i < r {
      BoundIs(all, key, r, i + 1);
    } else if r < |all| {
      Antisymmetric(all[r].key, key);
    }
  }

  lemma BoundStart(all: seq<Node>, key: Bytes, r: int)
    requires IsBound(all, key, r)
    ensures BoundFrom(all, key, 0) == r
  {
    BoundIs(all, key, r, 0);
  }

  /** What the reader returns for a relation and a source, whatever the store. */
  function TargetsOf(all: seq<Node>, relationId: int, source: UInt32): seq<int> {
    var prefix := Prefix(relationId, source);
    Hits(all, prefix, BoundFrom(all, prefix + [0, 0, 0, 0], 0))
  }

  /** LmdbReader::toManyTargets. */
  method ToManyTargets(root: Tree, ghost d: nat, relationId: int, source: int) returns (targets: seq<int>)
    requires Weak(root, d) && Sorted(InOrder(root)) && d < CURSOR_STACK && 0 <= source < UINT32
    ensures forall i, j :: 0 <= i < j < |targets| ==> targets[i] < targets[j]
    ensures 0 <= relationId < 64 && LinksOk(InOrder(root)) ==> Linked(InOrder(root), relationId, source, targets)
    ensures targets == TargetsOf(InOrder(root), relationId, source)
  {
    hide InOrder, Sorted, Weak, IsBound, HasPrefix, Hits, LinksOk, HasKey;
    ghost var all, r := InOrder(root), 0;
    targets, r := ReadTargets(root, d, relationId, source);
    BoundStart(all, Prefix(relationId, source) + [0, 0, 0, 0], r);
    BoundRange(all, Prefix(relationId, source) + [0, 0, 0, 0], r);
    HitsAscend(all, Prefix(relationId, source), r);
    if 0 <= relationId < 64 && LinksOk(all) {
      TargetsExact(all, relationId, source, r);
    }
  }

  /** The targets are those of the forward links from src. */
  ghost predicate Linked(all: seq<Node>, rel: int, src: int, targets: seq<int>)
    requires 0 <= rel < 64 && 0 <= src < UINT32
  {
    && (forall t :: 0 <= t < UINT32 ==> (t in targets <==> HasKey(all, LinkKey(rel, FORWARD, src, t))))
    && forall t :: t in targets ==> 0 <= t < UINT32
  }

  lemma BoundRange(all: seq<Node>, key: Bytes, r: int)
    requires IsBound(all, key, r)
    ensures 0 <= r <= |all|
  {
  }

  // ---- what the code does outside those stores ----

  /** A relation id of 64 reads the links of relation 0. */
  lemma RelationAliased(src: int, target: int)
    requires 0 <= src < UINT32 && 0 <= target < UINT32
    ensures IsHit(LinkKey(0, FORWARD, src, target), Prefix(64, src))
  {
    PrefixAlias(64, src, 0, src);
    PrefixOfLink(0, src, 0, FORWARD, src, target);
  }

  // ---- objects ----

  datatype ObjectRecord = ObjectRecord(entityId: int, objectId: UInt32, data: Bytes)

  predicate IsData(k: Bytes) { |k| == 8 && k[0] == KEY_DATA }

  /** The bytes from an overflow page on, by the reference to it in a leaf node. */
  type Overflow = Bytes -> Bytes

  /** mdb_node_read: the data of a node, on its page or on overflow pages. */
  function DataOf(n: Node, over: Overflow): Bytes {
    if n.Branch? then []
    else if n.flags % 2 != SlottedPage.F_BIGDATA then n.payload
    else if 0 <= n.dsize <= |over(n.payload)| then over(n.payload)[..n.dsize]
    else over(n.payload)
  }

  /** Data are read back as they were stored, also from an overflow page that holds them. */
  lemma StoredRead(n: Node, nodemax: int, ov: Bytes, over: Overflow)
    requires n.Ok() && |ov| == 8 && n.Leaf? && n.flags % 2 == 0 && n.payload <= over(ov)
    ensures DataOf(Stored(n, nodemax, ov), over) == n.payload
  {
    StoredIff(n, nodemax, ov);
  }

  function RecordOf(n: Node, over: Overflow): ObjectRecord
    requires IsData(n.key)
  {
    ObjectRecord(n.key[3] as int / 4, ReadUint32BE(n.key[4..]), DataOf(n, over))
  }

  /** The object records among the entries, in order. */
  function Objects(all: seq<Node>, over: Overflow): seq<ObjectRecord> {
    if all == [] then []
    else
      var n := |all| - 1;
      Objects(all[..n], over) + if IsData(all[n].key) then [RecordOf(all[n], over)] else []
  }

  /** A data entry, by its key: 8 bytes, the first of which says so. */
  ghost predicate IsObject(n: Node) { |n.key| == 8 && n.key[..1] == [KEY_DATA] }

  /** data is what the store holds for the entry: its payload, or if that is a reference the first
      dsize bytes from the overflow page on. */
  ghost predicate Holding(n: Node, over: Overflow, data: Bytes) {
    n.Leaf? ==>
      if n.flags % 2 == 0 then data == n.payload
      else 0 <= n.dsize <= |over(n.payload)| ==> |data| == n.dsize && data <= over(n.payload)
  }

  /** rec is what a reader should get for the entry at place k. */
  ghost predicate Answers(all: seq<Node>, over: Overflow, rec: ObjectRecord, k: int) {
    && 0 <= k < |all| && IsObject(all[k]) && 0 <= rec.objectId < UINT32 && Holding(all[k], over, rec.data)
    && rec.entityId * 4 <= all[k].key[3] as int < rec.entityId * 4 + 4 && all[k].key[4..] == WriteUint32BE(rec.objectId)
  }

  /** The records answer the data entries before place `upto`: each of them once, in key order. */
  ghost predicate Walked(all: seq<Node>, over: Overflow, recs: seq<ObjectRecord>, pos: seq<int>, upto: int) {
    && |pos| == |recs| && 0 <= upto <= |all|
    && (forall i :: 0 <= i < |recs| ==> pos[i] < upto && Answers(all, over, recs[i], pos[i]))
    && (forall i, j :: 0 <= i < j < |pos| ==> pos[i] < pos[j])
    && forall k :: 0 <= k < upto && IsObject(all[k]) ==> k in pos
  }

  lemma RecordAnswers(all: seq<Node>, over: Overflow, k: int)
    requires 0 <= k < |all| && IsData(all[k].key)
    ensures Answers(all, over, RecordOf(all[k], over), k)
  {
    ReadWrite(all[k].key[4..]);
  }

  lemma WalkedNone(all: seq<Node>, over: Overflow)
    ensures Walked(all, over, [], [], 0)
  {
  }

  lemma WalkedMore(all: seq<Node>, over: Overflow, recs: seq<ObjectRecord>, pos: seq<int>, k: int)
    requires Walked(all, over, recs, pos, k) && k < |all|
    ensures if IsData(all[k].key) then Walked(all, over, recs + [RecordOf(all[k], over)], pos + [k], k + 1)
            else Walked(all, over, recs, pos, k + 1)
  {
    hide Answers;
    if IsData(all[k].key) {
      RecordAnswers(all, over, k);
    }
  }

  /** LmdbReader::forEachObject; `stop` is the number of the record at which the callback asks
      to stop, or negative. */
  method ForEachObject(root: Tree, ghost d: nat, over: Overflow, stop: int)
    returns (recs: seq<ObjectRecord>, ghost pos: seq<int>)
    requires Weak(root, d) && Sorted(InOrder(root)) && d < CURSOR_STACK
    ensures |pos| == |recs|
    ensures Walked(InOrder(root), over, recs, pos, if 0 <= stop < |recs| then pos[stop] + 1 else |InOrder(root)|)
    ensures recs <= Objects(InOrder(root), over)
    ensures |recs| == |Objects(InOrder(root), over)| || (0 <= stop && |recs| == stop + 1)
    ensures 0 <= stop ==> |recs| <= stop + 1
  {
    hide InOrder, Sorted, Weak, Objects, Walked, DataOf, ReadUint32BE;
    ghost var all, i := InOrder(root), 0;
    var c := new Cursor(root, d);
    recs, pos := [], [];
    ObjectsNone(all, over);
    WalkedNone(all, over);
    var rc, e := c.First();
    while rc == SUCCESS
      invariant c.Valid() && c.root == root && 0 <= i <= |all|
      invariant rc == SUCCESS ==> c.Settled() && c.Pos() == i < |all| && e == all[i]
      invariant rc != SUCCESS ==> i == |all|
      invariant recs == Objects(all[..i], over) && (0 <= stop ==> |recs| <= stop)
      invariant Walked(all, over, recs, pos, i) && |pos| == |recs|
      decreases |all| - i, rc == SUCCESS
    {
      ObjectsNext(all, over, i);
      WalkedMore(all, over, recs, pos, i);
      if IsData(e.key) {
        recs := recs + [RecordOf(e, over)];
        pos := pos + [i];
        if |recs| == stop + 1 {
          ObjectsPrefix(all, over, i + 1);
          return;
        }
      }
      i := i + 1;
      rc, e := c.Next();
    }
    ObjectsPrefix(all, over, |all|);
  }

  /** The store has data keys as ObjectBox writes them, and no others of that kind. */
  ghost predicate DataKeysPlain(all: seq<Node>) {
    forall i :: 0 <= i < |all| && IsObject(all[i]) ==> IsDataKey(all[i].key)
  }

  ghost predicate IsDataKey(k: Bytes) {
    exists e, o :: 0 <= e < 64 && 0 <= o < UINT32 && k == DataKey(e, o)
  }

  /** Some record is that of the object. */
  ghost predicate HasRecord(recs: seq<ObjectRecord>, entity: int, oid: int) {
    exists i :: 0 <= i < |recs| && recs[i].entityId == entity && recs[i].objectId == oid
  }

  /** n is the entry of the object. */
  ghost predicate KeyOf(rec: ObjectRecord, n: Node) {
    0 <= rec.entityId < 64 && 0 <= rec.objectId < UINT32 && n.key == DataKey(rec.entityId, rec.objectId)
  }

  lemma AnswersKey(all: seq<Node>, over: Overflow, rec: ObjectRecord, k: int)
    requires Answers(all, over, rec, k) && DataKeysPlain(all)
    ensures 0 <= rec.entityId < 64 && 0 <= rec.objectId < UINT32
    ensures all[k].key == DataKey(rec.entityId, rec.objectId)
  {
    assert IsDataKey(all[k].key);
    var e, o :| 0 <= e < 64 && 0 <= o < UINT32 && all[k].key == DataKey(e, o);
    DataKeyRead(e, o);
    WriteRead(rec.objectId);
    assert e * 4 == all[k].key[3] as int;
    assert rec.entityId == e;
  }

  /** Every record of a full walk is that of the entry with its key. */
  lemma RecordsKeyed(all: seq<Node>, over: Overflow, recs: seq<ObjectRecord>, pos: seq<int>)
    requires DataKeysPlain(all) && Walked(all, over, recs, pos, |all|)
    ensures |pos| == |recs| && forall i :: 0 <= i < |recs| ==> 0 <= pos[i] < |all| && KeyOf(recs[i], all[pos[i]])
  {
    hide Holding, IsObject, DataKeysPlain;
    forall i | 0 <= i < |recs| ensures 0 <= pos[i] < |all| && KeyOf(recs[i], all[pos[i]]) {
      AnswersKey(all, over, recs[i], pos[i]);
    }
  }

  ghost predicate Ascending(recs: seq<ObjectRecord>) {
    forall i, j :: 0 <= i < j < |recs| ==>
      recs[i].entityId < recs[j].entityId
      || (recs[i].entityId == recs[j].entityId && recs[i].objectId < recs[j].objectId)
  }

  lemma RecordsAscend(all: seq<Node>, over: Overflow, recs: seq<ObjectRecord>, pos: seq<int>)
    requires Sorted(all) && DataKeysPlain(all) && Walked(all, over, recs, pos, |all|)
    ensures Ascending(recs)
  {
    RecordsKeyed(all, over, recs, pos);
    hide DataKeysPlain, Answers, IsObject, DataKey;
    forall i, j | 0 <= i < j < |recs|
      ensures recs[i].entityId < recs[j].entityId
              || (recs[i].entityId == recs[j].entityId && recs[i].objectId < recs[j].objectId)
    {
      assert Lt(all[pos[i]].key, all[pos[j]].key);
      DataKeyOrder(recs[i].entityId, recs[i].objectId, recs[j].entityId, recs[j].objectId);
    }
  }

  /** On such a store the objects of a full walk are those with an entry, each of them once, entity
      by entity and in ascending order within it, each with what the store holds for it. */
  lemma ObjectsExact(all: seq<Node>, over: Overflow, recs: seq<ObjectRecord>, pos: seq<int>)
    requires Sorted(all) && DataKeysPlain(all) && Walked(all, over, recs, pos, |all|)
    ensures forall e, o :: 0 <= e < 64 && 0 <= o < UINT32 ==>
              (HasRecord(recs, e, o) <==> HasKey(all, DataKey(e, o)))
    ensures forall i :: 0 <= i < |recs| ==> 0 <= recs[i].entityId < 64 && 0 <= recs[i].objectId < UINT32
    ensures Ascending(recs)
    ensures forall i, k :: 0 <= i < |recs| && 0 <= k < |all| && KeyOf(recs[i], all[k]) ==>
              Holding(all[k], over, recs[i].data)
  {
    RecordsKeyed(all, over, recs, pos);
    RecordsAscend(all, over, recs, pos);
    hide Holding, IsObject, DataKeysPlain, DataKey, Answers, Sorted, Ascending;
    forall e, o | 0 <= e < 64 && 0 <= o < UINT32 ensures HasRecord(recs, e, o) <==> HasKey(all, DataKey(e, o)) {
      if HasRecord(recs, e, o) {
        var i :| 0 <= i < |recs| && recs[i].entityId == e && recs[i].objectId == o;
        assert all[pos[i]].key == DataKey(e, o);
      }
      if HasKey(all, DataKey(e, o)) {
        var k :| 0 <= k < |all| && all[k].key == DataKey(e, o);
        ObjectAt(all, over, recs, pos, e, o, k);
      }
    }
    forall i, k | 0 <= i < |recs| && 0 <= k < |all| && KeyOf(recs[i], all[k])
      ensures Holding(all[k], over, recs[i].data)
    {
      if k < pos[i] { SameKey(all, k, pos[i]); } else if pos[i] < k { SameKey(all, pos[i], k); }
      AnswersHolds(all, over, recs[i], k);
    }
  }

  lemma AnswersHolds(all: seq<Node>, over: Overflow, rec: ObjectRecord, k: int)
    requires Answers(all, over, rec, k)
    ensures Holding(all[k], over, rec.data)
  {
  }

  /** No key stands in two places. */
  lemma SameKey(all: seq<Node>, i: int, j: int)
    requires Sorted(all) && 0 <= i < j < |all|
    ensures all[i].key != all[j].key
  {
    assert Lt(all[i].key, all[j].key);
    Equal(all[i].key, all[j].key);
  }

  lemma ObjectAt(all: seq<Node>, over: Overflow, recs: seq<ObjectRecord>, pos: seq<int>, e: int, o: int, k: int)
    requires Walked(all, over, recs, pos, |all|) && 0 <= e < 64 && 0 <= o < UINT32
    requires 0 <= k < |all| && all[k].key == DataKey(e, o)
    ensures HasRecord(recs, e, o)
  {
    DataKeyRead(e, o);
    assert IsObject(all[k]);
    var i :| 0 <= i < |pos| && pos[i] == k;
    WriteRead(o);
    WriteRead(recs[i].objectId);
    assert Answers(all, over, recs[i], pos[i]);
  }

  /** Keys that differ in the low bits of the entity's byte read as the same object. */
  lemma SameObjectTwice(entity: int, oid: int, low: int, n: Node, m: Node, over: Overflow, rec: ObjectRecord)
    requires 0 <= entity < 64 && 0 <= oid < UINT32 && 1 <= low < 4
    requires n.key == DataKey(entity, oid)
    requires m.key == [KEY_DATA, 0, 0, (entity * 4 + low) as Byte] + WriteUint32BE(oid)
    ensures Lt(n.key, m.key) && RecordOf(n, over).entityId == RecordOf(m, over).entityId == entity
    ensures RecordOf(n, over).objectId == RecordOf(m, over).objectId == oid
  {
    var p: Bytes := [KEY_DATA, 0, 0];
    assert n.key == p + n.key[3..] && m.key == p + m.key[3..];
    SamePrefix(p, n.key[3..], m.key[3..]);
    WriteRead(oid);
    assert n.key[4..] == m.key[4..] == WriteUint32BE(oid);
  }

  lemma ObjectsNone(all: seq<Node>, over: Overflow)
    ensures Objects(all[..0], over) == []
  {
  }

  lemma ObjectsNext(all: seq<Node>, over: Overflow, i: int)
    requires 0 <= i < |all|
    ensures Objects(all[..i + 1], over) == Objects(all[..i],
            over) + if IsData(all[i].key) then [RecordOf(all[i], over)] else []
  {
    assert all[..i + 1][..i] == all[..i];
  }

  lemma {:induction false} ObjectsPrefix(all: seq<Node>, over: Overflow, i: int)
    requires 0 <= i <= |all|
    ensures Objects(all[..i], over) <= Objects(all, over)
    ensures (i == |all| ==> Objects(all[..i], over) == Objects(all, over))
    decreases |all| - i
  {
    if i == |all| {
      assert all[..i] == all;
    } else {
      ObjectsNext(all, over, i);
      ObjectsPrefix(all, over, i + 1);
    }
  }

  /** Bytes 1 and 2 of the data keys are zero, as ObjectBox writes them. */
  ghost predicate DataKeysOk(all: seq<Node>) {
    forall i :: 0 <= i < |all| && IsData(all[i].key) ==> all[i].key[1] == 0 && all[i].key[2] == 0
  }

  function RecordId(k: Bytes): int requires IsData(k) { k[3] as int / 4 }

  lemma DataOrder(a: Bytes, b: Bytes)
    requires IsData(a) && IsData(b) && a[1] == b[1] == 0 && a[2] == b[2] == 0 && Lt(a, b)
    ensures RecordId(a) <= RecordId(b)
  {
    var p: Bytes := [KEY_DATA, 0, 0];
    assert a == p + a[3..] && b == p + b[3..];
    SamePrefix(p, a[3..], b[3..]);
    assert a[3..][0] == a[3] && b[3..][0] == b[3];
  }

  ghost predicate ComesFrom(all: seq<Node>, over: Overflow, rec: ObjectRecord, k: int) {
    0 <= k < |all| && IsData(all[k].key) && RecordOf(all[k], over) == rec
  }

  lemma {:induction false} ObjectsFrom(all: seq<Node>, over: Overflow, i: int)
    requires 0 <= i < |Objects(all, over)|
    ensures exists k :: ComesFrom(all, over, Objects(all, over)[i], k)
    decreases |all|
  {
    var n := |all| - 1;
    if i < |Objects(all[..n], over)| {
      ObjectsFrom(all[..n], over, i);
      var k :| ComesFrom(all[..n], over, Objects(all[..n], over)[i], k);
      assert ComesFrom(all, over, Objects(all, over)[i], k);
    } else {
      assert ComesFrom(all, over, Objects(all, over)[i], n);
    }
  }

  ghost predicate ByEntity(o: seq<ObjectRecord>) {
    forall i, j :: 0 <= i < j < |o| ==> o[i].entityId <= o[j].entityId
  }

  /** Objects come entity by entity: the ids never go down. */
  lemma {:induction false} EntitiesInOrder(all: seq<Node>, over: Overflow)
    requires Sorted(all) && DataKeysOk(all)
    ensures ByEntity(Objects(all, over))
    decreases |all|
  {
    if all != [] {
      var n := |all| - 1;
      var t := all[..n];
      assert forall k :: 0 <= k < n ==> t[k] == all[k];
      EntitiesInOrder(t, over);
      var o, o' := Objects(t, over), Objects(all, over);
      forall i, j | 0 <= i < j < |o'| ensures o'[i].entityId <= o'[j].entityId {
        if j == |o| {
          ObjectsFrom(t, over, i);
          var k :| ComesFrom(t, over, o[i], k);
          assert Lt(all[k].key, all[n].key);
          assert IsData(all[n].key) && o'[j] == RecordOf(all[n], over) && o'[i] == RecordOf(all[k], over);
          DataOrder(all[k].key, all[n].key);
          assert o'[i].entityId <= o'[j].entityId;
        } else {
          assert o'[i] == o[i] && o'[j] == o[j];
          assert o[i].entityId <= o[j].entityId;
        }
      }
    }
  }
}
