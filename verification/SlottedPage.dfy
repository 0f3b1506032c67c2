/** Slotted pages: an array of 16-bit offsets grows up from the page header, nodes grow down
    from the page end, and mdb_node_add, mdb_node_del and mdb_update_key keep them tiled. */
module SlottedPage {

  import opened ByteOrder

  const PAGEHDRSZ := 16
  const NODESIZE := 8
  const MAX_PAGESIZE := 0x8000
  const MAXKEYSIZE := 511
  const F_BIGDATA := 1

  const MDB_SUCCESS := 0
  const MDB_PAGE_FULL := -30786

  // ---- nodes ----

  function Even(n: int): (r: int)
    ensures n <= r <= n + 1 && r % 2 == 0
  {
    n + n % 2
  }

  function U16(b: Bytes, o: int): (r: int)
    requires 0 <= o && o + 2 <= |b|
    ensures 0 <= r < 0x1_0000
  {
    b[o] as int + 256 * b[o + 1] as int
  }

  function Enc16(x: int): (r: Bytes)
    requires 0 <= x < 0x1_0000
    ensures |r| == 2 && U16(r, 0) == x
  {
    [(x % 256) as Byte, (x / 256) as Byte]
  }

  /** The size of a node with header h. */
  function HeaderLen(h: Bytes, leaf: bool): (r: int)
    requires |h| == NODESIZE
    ensures NODESIZE <= r && r % 2 == 0
  {
    Even(NODESIZE + U16(h, 6) +
         if !leaf then 0
         else if U16(h, 4) % 2 == F_BIGDATA then 8
         else U16(h, 0) + 0x1_0000 * U16(h, 2))
  }

  /** The size of the node at offset o. */
  function NodeLen(b: Bytes, o: int, leaf: bool): (r: int)
    ensures NODESIZE <= r && r % 2 == 0
  {
    if 0 <= o && o + NODESIZE <= |b| then HeaderLen(b[o..o + NODESIZE], leaf) else NODESIZE
  }

  predicate Fits(b: Bytes, o: int, leaf: bool) {
    0 <= o && o + NODESIZE <= |b| && o + NodeLen(b, o, leaf) <= |b|
  }

  function NodeAt(b: Bytes, o: int, leaf: bool): (r: Bytes)
    ensures Fits(b, o, leaf) ==> |r| == NodeLen(b, o, leaf)
  {
    if Fits(b, o, leaf) then b[o..o + NodeLen(b, o, leaf)] else []
  }

  /** The node at o' in b' is, byte for byte, the one at o in b. */
  ghost predicate SameNode(b: Bytes, o: int, b': Bytes, o': int, leaf: bool) {
    Fits(b', o', leaf) && NodeLen(b', o', leaf) == NodeLen(b, o, leaf) && NodeAt(b', o', leaf) == NodeAt(b, o, leaf)
  }

  lemma MovedNode(b: Bytes, o: int, b': Bytes, o': int, leaf: bool)
    requires Fits(b, o, leaf) && 0 <= o' && o' + NodeLen(b, o, leaf) <= |b'|
    requires b'[o'..o' + NodeLen(b, o, leaf)] == b[o..o + NodeLen(b, o, leaf)]
    ensures SameNode(b, o, b', o', leaf)
  {
    var n := NodeLen(b, o, leaf);
    assert b'[o'..o' + NODESIZE] == b'[o'..o' + n][..NODESIZE] == b[o..o + n][..NODESIZE] == b[o..o + NODESIZE];
  }

  // ---- pages ----

  ghost predicate Disjoint(b: Bytes, leaf: bool, o: int, p: int) {
    o + NodeLen(b, o, leaf) <= p || p + NodeLen(b, p, leaf) <= o
  }

  ghost predicate AllFit(b: Bytes, ptrs: seq<int>, leaf: bool, upper: int) {
    forall i :: 0 <= i < |ptrs| ==> upper <= ptrs[i] && ptrs[i] % 2 == 0 && Fits(b, ptrs[i], leaf)
  }

  ghost predicate AllDisjoint(b: Bytes, ptrs: seq<int>, leaf: bool) {
    forall i, j :: 0 <= i < j < |ptrs| ==> Disjoint(b, leaf, ptrs[i], ptrs[j])
  }

  function NodesOf(b: Bytes, ptrs: seq<int>, leaf: bool): (r: seq<Bytes>)
    ensures |r| == |ptrs| && forall i :: 0 <= i < |r| ==> r[i] == NodeAt(b, ptrs[i], leaf)
  {
    seq(|ptrs|, i requires 0 <= i < |ptrs| => NodeAt(b, ptrs[i], leaf))
  }

  function Total(nodes: seq<Bytes>): int {
    if nodes == [] then 0 else Total(nodes[..|nodes| - 1]) + |nodes[|nodes| - 1]|
  }

  /** Nodes are even-sized, disjoint, and tile the space from upper to the page end; lower
      matches their count. */
  ghost predicate Tiled(b: Bytes, ptrs: seq<int>, leaf: bool, lower: int, upper: int) {
    && |b| <= MAX_PAGESIZE && |b| % 2 == 0 && upper % 2 == 0
    && lower == PAGEHDRSZ + 2 * |ptrs| && lower <= upper <= |b|
    && AllFit(b, ptrs, leaf, upper)
    && AllDisjoint(b, ptrs, leaf)
    && Total(NodesOf(b, ptrs, leaf)) == |b| - upper
  }

  /** r is s with x inserted at i. */
  ghost predicate Inserted<T(!new)>(s: seq<T>, i: int, x: T, r: seq<T>) {
    && 0 <= i <= |s| && |r| == |s| + 1 && r[i] == x
    && (forall k :: 0 <= k < i ==> r[k] == s[k])
    && (forall k :: i < k < |r| ==> r[k] == s[k - 1])
  }

  lemma InsertedIs<T(!new)>(s: seq<T>, i: int, x: T, r: seq<T>)
    requires Inserted(s, i, x, r)
    ensures r == s[..i] + [x] + s[i..] && s == r[..i] + r[i + 1..]
  {
  }

  lemma {:induction false} TotalInsert(s: seq<Bytes>, i: int, x: Bytes, r: seq<Bytes>)
    requires Inserted(s, i, x, r)
    ensures Total(r) == Total(s) + |x|
    decreases |s|
  {
    if i == |s| {
      assert r[..|r| - 1] == s;
    } else {
      TotalInsert(s[..|s| - 1], i, x, r[..|r| - 1]);
      assert r[|r| - 1] == s[|s| - 1];
    }
  }

  lemma TotalReplace(s: seq<Bytes>, i: nat, x: Bytes)
    requires i < |s|
    ensures Total(s[i := x]) == Total(s) - |s[i]| + |x|
  {
    var t := s[..i] + s[i + 1..];
    TotalInsert(t, i, s[i], s);
    TotalInsert(t, i, x, s[i := x]);
  }

  // ---- adding a node ----

  /** Above `upper` the two pages agree. */
  lemma Kept(b: Bytes, b': Bytes, o: int, leaf: bool, upper: int)
    requires Fits(b, o, leaf) && upper <= o && |b'| == |b| && 0 <= upper <= |b| && b'[upper..] == b[upper..]
    ensures SameNode(b, o, b', o, leaf)
  {
    var n := NodeLen(b, o, leaf);
    assert b'[o..o + n] == b'[upper..][o - upper..o - upper + n];
    assert b[o..o + n] == b[upper..][o - upper..o - upper + n];
    MovedNode(b, o, b', o, leaf);
  }

  /** Offset p' of b' holds the node that offset p of b held, no lower than lo. */
  ghost predicate Carried(b: Bytes, p: int, b': Bytes, p': int, leaf: bool, lo: int)
  {
    Fits(b, p, leaf) && SameNode(b, p, b', p', leaf) && lo <= p' && p' % 2 == 0
  }

  /** A node written just below upper leaves the others alone. */
  lemma AddTiled(b: Bytes, b': Bytes, ptrs: seq<int>, ptrs': seq<int>, leaf: bool, lower: int, upper: int, indx: int,
      o: int)
    requires Tiled(b, ptrs, leaf, lower, upper) && Inserted(ptrs, indx, o, ptrs')
    requires o % 2 == 0 && lower + 2 <= o && |b'| == |b| && b'[upper..] == b[upper..]
    requires o + NODESIZE <= upper && o + NodeLen(b', o, leaf) == upper
    ensures Tiled(b', ptrs', leaf, lower + 2, o)
    ensures Inserted(NodesOf(b, ptrs, leaf), indx, b'[o..upper], NodesOf(b', ptrs', leaf))
  {
    forall i | 0 <= i < |ptrs| ensures Carried(b, ptrs[i], b', ptrs[i], leaf, upper) {
      Kept(b, b', ptrs[i], leaf, upper);
    }
    hide NodeLen, SameNode;
    AddFits(b, b', ptrs, ptrs', leaf, upper, indx, o);
    AddDisjoint(b, b', ptrs, ptrs', leaf, upper, indx, o);
    TotalInsert(NodesOf(b, ptrs, leaf), indx, b'[o..upper], NodesOf(b', ptrs', leaf));
  }

  lemma AddFits(b: Bytes, b': Bytes, ptrs: seq<int>, ptrs': seq<int>, leaf: bool, upper: int, indx: int, o: int)
    requires AllFit(b, ptrs, leaf, upper)
    requires (forall i :: 0 <= i < |ptrs| ==> Carried(b, ptrs[i], b', ptrs[i], leaf, upper)) &&
            Inserted(ptrs, indx, o, ptrs')
    requires o % 2 == 0 && o + NODESIZE <= upper && Fits(b', o, leaf) && o + NodeLen(b', o, leaf) == upper
    ensures AllFit(b', ptrs', leaf, o)
    ensures Inserted(NodesOf(b, ptrs, leaf), indx, b'[o..upper], NodesOf(b', ptrs', leaf))
  {
    hide NodeLen;
    forall i | 0 <= i < |ptrs'| ensures o <= ptrs'[i] && ptrs'[i] % 2 == 0 && Fits(b', ptrs'[i], leaf) {
      var i' := if i < indx then i else i - 1;
      if i != indx { assert ptrs'[i] == ptrs[i'] && Carried(b, ptrs[i'], b', ptrs[i'], leaf, upper); }
    }
    var s, s' := NodesOf(b, ptrs, leaf), NodesOf(b', ptrs', leaf);
    forall i | 0 <= i < |s'| && i != indx ensures s'[i] == s[if i < indx then i else i - 1] {
      var i' := if i < indx then i else i - 1;
      assert ptrs'[i] == ptrs[i'] && Carried(b, ptrs[i'], b', ptrs[i'], leaf, upper);
    }
  }

  lemma AddDisjoint(b: Bytes, b': Bytes, ptrs: seq<int>, ptrs': seq<int>, leaf: bool, upper: int, indx: int, o: int)
    requires AllFit(b, ptrs, leaf, upper)
    requires (forall i :: 0 <= i < |ptrs| ==> Carried(b, ptrs[i], b', ptrs[i], leaf, upper)) &&
            Inserted(ptrs, indx, o, ptrs')
    requires AllDisjoint(b, ptrs, leaf)
    requires Fits(b', o, leaf) && o + NodeLen(b', o, leaf) <= upper && AllFit(b', ptrs', leaf, o)
    ensures AllDisjoint(b', ptrs', leaf)
  {
    hide NodeLen;
    forall i, j | 0 <= i < j < |ptrs'| ensures Disjoint(b', leaf, ptrs'[i], ptrs'[j]) {
      var i', j' := if i < indx then i else i - 1, if j < indx then j else j - 1;
      if i != indx { assert ptrs'[i] == ptrs[i'] && Carried(b, ptrs[i'], b', ptrs[i'], leaf, upper); }
      if j != indx { assert ptrs'[j] == ptrs[j'] && Carried(b, ptrs[j'], b', ptrs[j'], leaf, upper); }
      if i != indx && j != indx { assert Disjoint(b, leaf, ptrs[i'], ptrs[j']); }
    }
  }

  // ---- closing and opening gaps ----

  /** Where a node at o goes when those below ptr move up by d. */
  function Shift(o: int, ptr: int, d: int): int { if o < ptr then o + d else o }

  lemma SubSlice(b: Bytes, b': Bytes, lo: int, hi: int, lo': int, x: int, n: int)
    requires 0 <= lo <= x && 0 <= n && x + n <= hi <= |b| && 0 <= lo' && lo' + hi - lo <= |b'|
    requires b'[lo'..lo' + hi - lo] == b[lo..hi]
    ensures b'[x - lo + lo'..x - lo + lo' + n] == b[x..x + n]
  {
    var s, s' := b[lo..hi], b'[lo'..lo' + hi - lo];
    var u, u' := b[x..x + n], b'[x - lo + lo'..x - lo + lo' + n];
    forall k | 0 <= k < n ensures u'[k] == u[k] {
      assert u[k] == b[x + k] == s[x - lo + k];
      assert u'[k] == b'[x - lo + lo' + k] == s'[x - lo + k];
    }
    assert |u| == |u'| == n;
    assert u == u';
  }

  /** The nodes below ptr move by d, those above stay. */
  lemma ShiftCarried(b: Bytes, b': Bytes, o: int, leaf: bool, upper: int, ptr: int, d: int)
    requires Fits(b, ptr, leaf) && Fits(b, o, leaf) && Disjoint(b, leaf, o, ptr) && upper <= o && o % 2 == 0
    requires Slid(b, b', upper, ptr, NodeLen(b, ptr, leaf), d) && d % 2 == 0
    ensures Carried(b, o, b', Shift(o, ptr, d), leaf, upper + d)
  {
    var n := NodeLen(b, o, leaf);
    hide HeaderLen, NodeLen, Slid, SameNode;
    SlidSlice(b, b', upper, ptr, NodeLen(b, ptr, leaf), d, o, n);
    MovedNode(b, o, b', Shift(o, ptr, d), leaf);
  }

  lemma SlidSlice(b: Bytes, b': Bytes, upper: int, ptr: int, sz: int, d: int, o: int, n: int)
    requires Slid(b, b', upper, ptr, sz, d) && upper <= o && 0 <= n && o + n <= |b|
    requires (o + n <= ptr || ptr + sz <= o) && (0 < sz && 0 < n)
    ensures var o' := Shift(o, ptr, d);
            0 <= upper + d <= o' && o' + n <= |b'| && b'[o'..o' + n] == b[o..o + n]
  {
    if o < ptr {
      SubSlice(b, b', upper, ptr, upper + d, o, n);
    } else {
      Above(b, b', ptr + sz, o, n);
    }
  }

  lemma Above(b: Bytes, b': Bytes, e: int, o: int, n: int)
    requires |b| == |b'| && 0 <= e <= o && 0 <= n && o + n <= |b| && b'[e..] == b[e..]
    ensures b'[o..o + n] == b[o..o + n]
  {
    var u, u' := b[o..o + n], b'[o..o + n];
    forall k | 0 <= k < n ensures u'[k] == u[k] {
      var at := o - e + k;
      assert b'[e..][at] == b[e..][at];
      assert u[k] == b[e..][at] && u'[k] == b'[e..][at];
    }
    assert |u| == |u'| == n;
  }

  lemma ShiftDisjoint(b: Bytes, b': Bytes, o: int, p: int, leaf: bool, upper: int, ptr: int, d: int)
    requires Fits(b, ptr, leaf) && Fits(b, o, leaf) && Fits(b, p, leaf) && d <= NodeLen(b, ptr, leaf)
    requires Disjoint(b, leaf, o, p) && Disjoint(b, leaf, o, ptr) && Disjoint(b, leaf, p, ptr)
    requires Carried(b, o, b', Shift(o, ptr, d), leaf, upper) && Carried(b, p, b', Shift(p, ptr, d), leaf, upper)
    ensures Disjoint(b', leaf, Shift(o, ptr, d), Shift(p, ptr, d))
  {
    hide NodeLen;
  }

  /** The bytes from upper to ptr moved by d; those from ptr + sz on stayed. */
  ghost predicate Slid(b: Bytes, b': Bytes, upper: int, ptr: int, sz: int, d: int) {
    && |b'| == |b| && 0 <= upper <= ptr && 0 <= upper + d && d <= sz && 0 <= sz && ptr + sz <= |b|
    && b'[upper + d..ptr + d] == b[upper..ptr] && b'[ptr + sz..] == b[ptr + sz..]
  }

  ghost predicate Removed(ptrs: seq<int>, ptrs': seq<int>, indx: int, d: int) {
    && 0 <= indx < |ptrs| && |ptrs'| == |ptrs| - 1
    && (forall k :: 0 <= k < indx ==> ptrs'[k] == Shift(ptrs[k], ptrs[indx], d))
    && (forall k :: indx <= k < |ptrs'| ==> ptrs'[k] == Shift(ptrs[k + 1], ptrs[indx], d))
  }

  /** Deleting a node and moving those below it up over the gap. */
  lemma DelTiled(b: Bytes, b': Bytes, ptrs: seq<int>, ptrs': seq<int>, leaf: bool, lower: int, upper: int, indx: int,
      sz: int)
    requires Tiled(b, ptrs, leaf, lower, upper) && 0 <= indx < |ptrs| && sz == NodeLen(b, ptrs[indx], leaf)
    requires Removed(ptrs, ptrs', indx, sz) && Slid(b, b', upper, ptrs[indx], sz, sz)
    ensures Tiled(b', ptrs', leaf, lower - 2, upper + sz)
    ensures Inserted(NodesOf(b', ptrs', leaf), indx, NodeAt(b, ptrs[indx], leaf), NodesOf(b, ptrs, leaf))
  {
    hide HeaderLen, NodeLen, NodeAt, Inserted, AllDisjoint, Slid, Removed;
    DelParts(b, b', ptrs, ptrs', leaf, upper, indx, sz);
    hide AllFit, Fits;
    TotalInsert(NodesOf(b', ptrs', leaf), indx, NodeAt(b, ptrs[indx], leaf), NodesOf(b, ptrs, leaf));
  }

  lemma DelParts(b: Bytes, b': Bytes, ptrs: seq<int>, ptrs': seq<int>, leaf: bool, upper: int, indx: int, sz: int)
    requires AllFit(b, ptrs, leaf, upper) && 0 <= indx < |ptrs| && sz == NodeLen(b, ptrs[indx], leaf) && 0 <= upper
    requires AllDisjoint(b, ptrs, leaf)
    requires Removed(ptrs, ptrs', indx, sz) && Slid(b, b', upper, ptrs[indx], sz, sz)
    ensures AllFit(b', ptrs', leaf, upper + sz) && AllDisjoint(b', ptrs', leaf)
    ensures Inserted(NodesOf(b', ptrs', leaf), indx, NodeAt(b, ptrs[indx], leaf), NodesOf(b, ptrs, leaf))
    ensures upper + sz <= |b'| == |b| && sz % 2 == 0 && |ptrs| == |ptrs'| + 1 && |NodeAt(b, ptrs[indx], leaf)| == sz
  {
    DelCarry(b, b', ptrs, ptrs', leaf, upper, indx, sz);
    assert |b'| == |b| && upper + sz <= |b'| && |ptrs| == |ptrs'| + 1;
    assert forall i :: 0 <= i < |ptrs| ==> Fits(b, ptrs[i], leaf);
    hide HeaderLen, NodeLen, SameNode, AllDisjoint, Removed, AllCarried, Inserted, Slid;
    DelFits(b, b', ptrs, ptrs', leaf, upper + sz, indx, sz);
    DelDisjoint(b, b', ptrs, ptrs', leaf, upper + sz, indx, sz);
  }

  /** The node at place k after the deletion is one that was there before. */
  ghost predicate DelCarried(b: Bytes, b': Bytes, ptrs: seq<int>, ptrs': seq<int>, leaf: bool, lo: int, indx: int,
      d: int, k: int) {
    && 0 <= k < |ptrs'| && 0 <= indx < |ptrs| == |ptrs'| + 1
    && var i := if k < indx then k else k + 1;
       ptrs'[k] == Shift(ptrs[i], ptrs[indx], d) && Carried(b, ptrs[i], b', ptrs'[k], leaf, lo)
  }

  ghost predicate AllCarried(b: Bytes, b': Bytes, ptrs: seq<int>, ptrs': seq<int>, leaf: bool, lo: int, indx: int,
      d: int) {
    forall k :: 0 <= k < |ptrs'| ==> DelCarried(b, b', ptrs, ptrs', leaf, lo, indx, d, k)
  }

  lemma DelCarry(b: Bytes, b': Bytes, ptrs: seq<int>, ptrs': seq<int>, leaf: bool, upper: int, indx: int, sz: int)
    requires AllFit(b, ptrs, leaf, upper) && 0 <= indx < |ptrs| && sz == NodeLen(b, ptrs[indx], leaf) && 0 <= upper
    requires AllDisjoint(b, ptrs, leaf)
    requires Removed(ptrs, ptrs', indx, sz) && Slid(b, b', upper, ptrs[indx], sz, sz)
    ensures AllCarried(b, b', ptrs, ptrs', leaf, upper + sz, indx, sz)
  {
    var lo := upper + sz;
    forall k | 0 <= k < |ptrs'| ensures DelCarried(b, b', ptrs, ptrs', leaf, lo, indx, sz, k) {
      var i := if k < indx then k else k + 1;
      assert if k < indx then Disjoint(b, leaf, ptrs[i], ptrs[indx]) else Disjoint(b, leaf, ptrs[indx], ptrs[i]);
      hide NodeLen, Slid;
      ShiftCarried(b, b', ptrs[i], leaf, upper, ptrs[indx], sz);
      hide Shift, Carried;
    }
  }

  lemma DelFits(b: Bytes, b': Bytes, ptrs: seq<int>, ptrs': seq<int>, leaf: bool, lo: int, indx: int, d: int)
    requires 0 <= indx < |ptrs| == |ptrs'| + 1 && AllCarried(b, b', ptrs, ptrs', leaf, lo, indx, d)
    requires forall i :: 0 <= i < |ptrs| ==> Fits(b, ptrs[i], leaf)
    ensures AllFit(b', ptrs', leaf, lo) && forall k :: 0 <= k < |ptrs'| ==> Fits(b', ptrs'[k], leaf)
    ensures Inserted(NodesOf(b', ptrs', leaf), indx, NodeAt(b, ptrs[indx], leaf), NodesOf(b, ptrs, leaf))
  {
    hide NodeLen, Shift, NodeAt, Fits, NodesOf;
    forall k | 0 <= k < |ptrs'| ensures lo <= ptrs'[k] && ptrs'[k] % 2 == 0 && Fits(b', ptrs'[k], leaf) {
      assert DelCarried(b, b', ptrs, ptrs', leaf, lo, indx, d, k);
    }
    var s, s' := NodesOf(b, ptrs, leaf), NodesOf(b', ptrs', leaf);
    forall i | 0 <= i < |s| && i != indx ensures s[i] == s'[if i < indx then i else i - 1] {
      var k := if i < indx then i else i - 1;
      assert DelCarried(b, b', ptrs, ptrs', leaf, lo, indx, d, k);
    }
  }

  lemma DelDisjoint(b: Bytes, b': Bytes, ptrs: seq<int>, ptrs': seq<int>, leaf: bool, lo: int, indx: int, d: int)
    requires 0 <= indx < |ptrs| == |ptrs'| + 1 && AllCarried(b, b', ptrs, ptrs', leaf, lo, indx, d)
    requires (forall i :: 0 <= i < |ptrs| ==> Fits(b, ptrs[i], leaf)) && AllFit(b', ptrs', leaf, lo)
    requires AllDisjoint(b, ptrs, leaf)
    requires Fits(b, ptrs[indx], leaf) && d <= NodeLen(b, ptrs[indx], leaf)
    ensures AllDisjoint(b', ptrs', leaf)
  {
    hide NodeLen, Shift, SameNode;
    forall j, k | 0 <= j < k < |ptrs'| ensures Disjoint(b', leaf, ptrs'[j], ptrs'[k]) {
      var j', k' := if j < indx then j else j + 1, if k < indx then k else k + 1;
      assert DelCarried(b, b', ptrs, ptrs', leaf, lo, indx, d, j) &&
        DelCarried(b, b', ptrs, ptrs', leaf, lo, indx, d, k);
      assert Disjoint(b, leaf, ptrs[j'], ptrs[k']);
      assert if j' < indx then Disjoint(b, leaf, ptrs[j'], ptrs[indx]) else Disjoint(b, leaf, ptrs[indx], ptrs[j']);
      assert if k' < indx then Disjoint(b, leaf, ptrs[k'], ptrs[indx]) else Disjoint(b, leaf, ptrs[indx], ptrs[k']);
      ShiftDisjoint(b, b', ptrs[j'], ptrs[k'], leaf, lo, ptrs[indx], d);
    }
  }

  // ---- replacing a node ----

  /** The node at indx starts d bytes higher, and the ones below it move along. */
  ghost predicate Moved(ptrs: seq<int>, ptrs': seq<int>, indx: int, d: int) {
    && 0 <= indx < |ptrs| == |ptrs'|
    && forall k :: 0 <= k < |ptrs| ==> ptrs'[k] == if k == indx then ptrs[indx] + d else Shift(ptrs[k], ptrs[indx], d)
  }

  /** Giving the node at indx a new size, its end staying where it is. */
  lemma ReplaceTiled(b: Bytes, b': Bytes, ptrs: seq<int>, ptrs': seq<int>, leaf: bool, lower: int, upper: int,
      indx: int, sz: int, d: int)
    requires Tiled(b, ptrs, leaf, lower, upper) && 0 <= indx < |ptrs| && sz == NodeLen(b, ptrs[indx], leaf)
    requires Moved(ptrs, ptrs', indx, d) && Slid(b, b', upper, ptrs[indx], sz, d) && d % 2 == 0 && lower <= upper + d
    requires Fits(b', ptrs[indx] + d, leaf) && NodeLen(b', ptrs[indx] + d, leaf) == sz - d
    ensures Tiled(b', ptrs', leaf, lower, upper + d)
    ensures NodesOf(b', ptrs', leaf) == NodesOf(b, ptrs, leaf)[indx := NodeAt(b', ptrs[indx] + d, leaf)]
  {
    hide HeaderLen, NodeLen, NodeAt, NodesOf, AllDisjoint, Slid, Moved;
    ReplaceParts(b, b', ptrs, ptrs', leaf, upper, indx, sz, d);
    hide AllFit, Fits;
    TotalReplace(NodesOf(b, ptrs, leaf), indx, NodeAt(b', ptrs[indx] + d, leaf));
  }

  ghost predicate KeepsNode(b: Bytes, b': Bytes, ptrs: seq<int>, ptrs': seq<int>, leaf: bool, lo: int, ptr: int,
      d: int, k: int) {
    0 <= k < |ptrs| == |ptrs'| && ptrs'[k] == Shift(ptrs[k], ptr, d) && Carried(b, ptrs[k], b', ptrs'[k], leaf, lo)
  }

  lemma ReplaceParts(b: Bytes, b': Bytes, ptrs: seq<int>, ptrs': seq<int>, leaf: bool, upper: int, indx: int, sz: int,
      d: int)
    requires AllFit(b, ptrs, leaf, upper) && 0 <= indx < |ptrs| && sz == NodeLen(b, ptrs[indx], leaf) && 0 <= upper
    requires AllDisjoint(b, ptrs, leaf) && Moved(ptrs, ptrs', indx, d) && Slid(b, b', upper, ptrs[indx], sz, d)
    requires d % 2 == 0
    requires Fits(b', ptrs[indx] + d, leaf) && NodeLen(b', ptrs[indx] + d, leaf) == sz - d
    ensures AllFit(b', ptrs', leaf, upper + d) && AllDisjoint(b', ptrs', leaf)
    ensures NodesOf(b', ptrs', leaf) == NodesOf(b, ptrs, leaf)[indx := NodeAt(b', ptrs[indx] + d, leaf)]
    ensures upper + d <= |b'| == |b| && |ptrs| == |ptrs'|
    ensures |NodeAt(b', ptrs[indx] + d, leaf)| == sz - d && |NodeAt(b, ptrs[indx], leaf)| == sz
  {
    hide HeaderLen, NodeLen, Shift, KeepsNode, AllDisjoint;
    var lo := upper + d;
    ReplaceBounds(b, b', ptrs, ptrs', leaf, upper, indx, sz, d);
    ReplaceCarry(b, b', ptrs, ptrs', leaf, upper, indx, sz, d, lo);
    hide Slid, Moved;
    ReplaceFits(b, b', ptrs, ptrs', leaf, lo, indx, d);
    ReplaceDisjoint(b, b', ptrs, ptrs', leaf, lo, indx, sz, d);
  }

  lemma ReplaceBounds(b: Bytes, b': Bytes, ptrs: seq<int>, ptrs': seq<int>, leaf: bool, upper: int, indx: int,
      sz: int, d: int)
    requires AllFit(b, ptrs, leaf, upper) && Moved(ptrs, ptrs', indx, d) && Slid(b, b', upper, ptrs[indx], sz, d)
    ensures upper + d <= |b'| == |b| && |ptrs| == |ptrs'| && ptrs'[indx] == ptrs[indx] + d && d <= sz
    ensures upper + d <= ptrs[indx] + d
    ensures forall i :: 0 <= i < |ptrs| ==> Fits(b, ptrs[i], leaf)
  {
  }

  lemma ReplaceCarry(b: Bytes, b': Bytes, ptrs: seq<int>, ptrs': seq<int>, leaf: bool, upper: int, indx: int, sz: int,
      d: int, lo: int)
    requires AllFit(b, ptrs, leaf, upper) && 0 <= indx < |ptrs| && sz == NodeLen(b, ptrs[indx], leaf) && 0 <= upper
    requires AllDisjoint(b, ptrs, leaf) && Moved(ptrs, ptrs', indx, d) && Slid(b, b', upper, ptrs[indx], sz, d)
    requires d % 2 == 0
    requires lo == upper + d
    ensures forall k :: 0 <= k < |ptrs| && k != indx ==> KeepsNode(b, b', ptrs, ptrs', leaf, lo, ptrs[indx], d, k)
  {
    var ptr := ptrs[indx];
    forall k | 0 <= k < |ptrs| && k != indx ensures KeepsNode(b, b', ptrs, ptrs', leaf, lo, ptr, d, k) {
      assert if k < indx then Disjoint(b, leaf, ptrs[k], ptr) else Disjoint(b, leaf, ptr, ptrs[k]);
      hide NodeLen, Slid;
      ShiftCarried(b, b', ptrs[k], leaf, upper, ptr, d);
    }
  }

  lemma ReplaceFits(b: Bytes, b': Bytes, ptrs: seq<int>, ptrs': seq<int>, leaf: bool, lo: int, indx: int, d: int)
    requires 0 <= indx < |ptrs| == |ptrs'| && (forall i :: 0 <= i < |ptrs| ==> Fits(b, ptrs[i], leaf))
    requires forall k :: 0 <= k < |ptrs| && k != indx ==> KeepsNode(b, b', ptrs, ptrs', leaf, lo, ptrs[indx], d, k)
    requires lo <= ptrs'[indx] && ptrs'[indx] % 2 == 0 && Fits(b', ptrs'[indx], leaf)
    ensures AllFit(b', ptrs', leaf, lo)
    ensures NodesOf(b', ptrs', leaf) == NodesOf(b, ptrs, leaf)[indx := NodeAt(b', ptrs'[indx], leaf)]
  {
    hide NodeLen, Shift, NodeAt, Fits, NodesOf;
    forall k | 0 <= k < |ptrs'| ensures lo <= ptrs'[k] && ptrs'[k] % 2 == 0 && Fits(b', ptrs'[k], leaf) {
      if k != indx { assert KeepsNode(b, b', ptrs, ptrs', leaf, lo, ptrs[indx], d, k); }
    }
    var s, s' := NodesOf(b, ptrs, leaf), NodesOf(b', ptrs', leaf);
    forall k | 0 <= k < |s'| ensures s'[k] == s[indx := NodeAt(b', ptrs'[indx], leaf)][k] {
      if k != indx { assert KeepsNode(b, b', ptrs, ptrs', leaf, lo, ptrs[indx], d, k); }
    }
  }

  lemma ReplaceDisjoint(b: Bytes, b': Bytes, ptrs: seq<int>, ptrs': seq<int>, leaf: bool, lo: int, indx: int, sz: int,
      d: int)
    requires 0 <= indx < |ptrs| == |ptrs'|
    requires (forall i :: 0 <= i < |ptrs| ==> Fits(b, ptrs[i], leaf)) && AllFit(b', ptrs', leaf, lo)
    requires AllDisjoint(b, ptrs, leaf) && sz == NodeLen(b, ptrs[indx], leaf) && d <= sz
    requires forall k :: 0 <= k < |ptrs| && k != indx ==> KeepsNode(b, b', ptrs, ptrs', leaf, lo, ptrs[indx], d, k)
    requires ptrs'[indx] == ptrs[indx] + d && NodeLen(b', ptrs'[indx], leaf) == sz - d
    ensures AllDisjoint(b', ptrs', leaf)
  {
    hide NodeLen, SameNode;
    var ptr := ptrs[indx];
    forall j, k | 0 <= j < k < |ptrs'| ensures Disjoint(b', leaf, ptrs'[j], ptrs'[k]) {
      assert j == indx || KeepsNode(b, b', ptrs, ptrs', leaf, lo, ptr, d, j);
      assert k == indx || KeepsNode(b, b', ptrs, ptrs', leaf, lo, ptr, d, k);
      assert Disjoint(b, leaf, ptrs[j], ptrs[k]);
      if j != indx && k != indx {
        assert if j < indx then Disjoint(b, leaf, ptrs[j], ptr) else Disjoint(b, leaf, ptr, ptrs[j]);
        assert if k < indx then Disjoint(b, leaf, ptrs[k], ptr) else Disjoint(b, leaf, ptr, ptrs[k]);
        ShiftDisjoint(b, b', ptrs[j], ptrs[k], leaf, lo, ptr, d);
      } else {
        SameLen(b, b', ptrs, ptrs', leaf, lo, ptr, d, if j == indx then k else j);
      }
    }
  }

  lemma SameLen(b: Bytes, b': Bytes, ptrs: seq<int>, ptrs': seq<int>, leaf: bool, lo: int, ptr: int, d: int, k: int)
    requires KeepsNode(b, b', ptrs, ptrs', leaf, lo, ptr, d, k)
    ensures Fits(b, ptrs[k], leaf) && Fits(b', ptrs'[k], leaf)
    ensures NodeLen(b', ptrs'[k], leaf) == NodeLen(b, ptrs[k], leaf)
  {
  }
}
