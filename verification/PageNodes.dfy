/** mdb_node_add, mdb_node_del and mdb_update_key on one page. */
module PageNodes {
  import opened ByteOrder
  import opened SlottedPage

  const ENOMEM := 12
  const NEEDS_SPLIT := 1        // update_key goes on with mdb_page_split

  // ---- node contents ----

  function Header(lo: int, hi: int, flags: int, ksize: int): (r: Bytes)
    requires 0 <= lo < 0x1_0000 && 0 <= hi < 0x1_0000 && 0 <= flags < 0x1_0000 && 0 <= ksize < 0x1_0000
    ensures |r| == NODESIZE
    ensures U16(r, 0) == lo && U16(r, 2) == hi && U16(r, 4) == flags && U16(r, 6) == ksize
  {
    var r := Enc16(lo) + Enc16(hi) + Enc16(flags) + Enc16(ksize);
    assert r[0..2] == Enc16(lo) && r[2..4] == Enc16(hi) && r[4..6] == Enc16(flags) && r[6..8] == Enc16(ksize);
    assert r[2] == r[2..4][0] && r[3] == r[2..4][1] && r[4] == r[4..6][0] && r[5] == r[4..6][1];
    assert r[6] == r[6..8][0] && r[7] == r[6..8][1] && r[0] == r[0..2][0] && r[1] == r[0..2][1];
    r
  }

  /** A node: a leaf node has a data size and the data, or the number of the overflow page
      that holds them; a branch node has a child page number. */
  datatype Node =
    | Leaf(key: Bytes, dsize: int, flags: int, payload: Bytes)
    | Branch(key: Bytes, pgno: int) {
    predicate Ok() {
      && |key| <= MAXKEYSIZE
      && match this
         case Leaf(_, dsize, flags, payload) =>
           0 <= dsize < 0x1_0000_0000 && 0 <= flags < 0x1_0000 &&
             |payload| == if flags % 2 == F_BIGDATA then 8 else dsize
         case Branch(_, pgno) => 0 <= pgno < 0x1_0000_0000_0000
    }

    /** SETDSZ and SETPGNO. */
    function Head(): (r: Bytes)
      requires Ok()
      ensures |r| == NODESIZE && U16(r, 6) == |key|
      ensures Leaf? ==> U16(r, 0) + 0x1_0000 * U16(r, 2) == dsize && U16(r, 4) == flags
      ensures Branch? ==> U16(r, 0) + 0x1_0000 * U16(r, 2) + 0x1_0000_0000 * U16(r, 4) == pgno
    {
      match this
      case Leaf(key, dsize, flags, payload) => Header(dsize % 0x1_0000, dsize / 0x1_0000, flags, |key|)
      case Branch(key, pgno) =>
        var rest := pgno / 0x1_0000;
        assert pgno == pgno % 0x1_0000 + 0x1_0000 * rest && rest == rest % 0x1_0000 + 0x1_0000 * (rest / 0x1_0000);
        Header(pgno % 0x1_0000, rest % 0x1_0000, rest / 0x1_0000, |key|)
    }

    function Body(): Bytes { if Leaf? then key + payload else key }

    function Encode(): (r: Bytes)
      requires Ok()
      ensures |r| == NODESIZE + |Body()|
    {
      Head() + Body()
    }
  }

  /** NODEDSZ, NODEPGNO, NODEKEY and NODEDATA, on the bytes of a node. */
  function Decode(b: Bytes, leaf: bool): Node
    requires NODESIZE <= |b| && NODESIZE + U16(b, 6) <= |b|
  {
    var key := b[NODESIZE..NODESIZE + U16(b, 6)];
    if leaf then
      var dsize := U16(b, 0) + 0x1_0000 * U16(b, 2);
      var rest := b[NODESIZE + U16(b, 6)..];
      var n := if U16(b, 4) % 2 == F_BIGDATA then 8 else dsize;
      Leaf(key, dsize, U16(b, 4), if n <= |rest| then rest[..n] else rest)
    else Branch(key, U16(b, 0) + 0x1_0000 * U16(b, 2) + 0x1_0000_0000 * U16(b, 4))
  }

  lemma U16Prefix(b: Bytes, c: Bytes, o: int)
    requires 0 <= o && o + 2 <= |c| <= |b| && b[..|c|] == c
    ensures U16(b, o) == U16(c, o)
  {
    assert b[o] == b[..|c|][o] && b[o + 1] == b[..|c|][o + 1];
  }

  lemma HeadRead(n: Node, b: Bytes)
    requires n.Ok() && |n.Encode()| <= |b| && b[..|n.Encode()|] == n.Encode()
    ensures b[..NODESIZE] == n.Head()
    ensures U16(b, 0) == U16(n.Head(), 0) && U16(b, 2) == U16(n.Head(), 2)
    ensures U16(b, 4) == U16(n.Head(), 4) && U16(b, 6) == U16(n.Head(), 6)
  {
    var e, h := n.Encode(), n.Head();
    assert b[..NODESIZE] == e[..NODESIZE] == h;
    U16Prefix(b, h, 0);
    U16Prefix(b, h, 2);
    U16Prefix(b, h, 4);
    U16Prefix(b, h, 6);
  }

  lemma BodyRead(b: Bytes, head: Bytes, key: Bytes, rest: Bytes)
    requires var e := head + (key + rest); |e| <= |b| && b[..|e|] == e
    ensures var k := |head| + |key|; b[|head|..k] == key && b[k..][..|rest|] == rest
  {
    var e, k := head + (key + rest), |head| + |key|;
    assert forall i :: 0 <= i < |e| ==> b[i] == b[..|e|][i];
    assert forall i :: 0 <= i < |rest| ==> b[k..][i] == b[k + i] == e[k + i] == rest[i];
  }

  /** A node is what its header, key and payload say. */
  lemma DecodeParts(n: Node, b: Bytes, h: Bytes)
    requires n.Ok() && NODESIZE + |n.Body()| <= |b| && h == n.Head()
    requires U16(b, 0) == U16(h, 0) && U16(b, 2) == U16(h, 2) && U16(b, 4) == U16(h, 4) && U16(b, 6) == U16(h, 6)
    requires b[NODESIZE..NODESIZE + |n.key|] == n.key
    requires n.Leaf? ==> b[NODESIZE + |n.key|..][..|n.payload|] == n.payload
    ensures Decode(b, n.Leaf?) == n
  {
    hide U16;
  }

  /** Reading back what was written, whatever the padding byte. */
  lemma DecodeEncode(n: Node, b: Bytes)
    requires n.Ok() && |n.Encode()| <= |b| && b[..|n.Encode()|] == n.Encode()
    ensures NODESIZE + U16(b, 6) <= |b| && Decode(b, n.Leaf?) == n
    ensures HeaderLen(b[..NODESIZE], n.Leaf?) == Even(|n.Encode()|)
  {
    hide Decode, U16;
    var rest := if n.Leaf? then n.payload else [];
    assert n.Body() == n.key + rest;
    HeadRead(n, b);
    BodyRead(b, n.Head(), n.key, rest);
    DecodeParts(n, b, n.Head());
    hide Node.Encode;
  }

  /** A leaf node too large for its page keeps the number of an overflow page instead. */
  function Stored(n: Node, nodemax: int, ov: Bytes): (r: Node)
    requires n.Ok()
    ensures |ov| == 8 ==> r.Ok()
    ensures r.key == n.key && (n.Leaf? <==> r.Leaf?)
  {
    if n.Leaf? && n.flags % 2 != F_BIGDATA && NODESIZE + |n.key| + n.dsize > nodemax
    then Leaf(n.key, n.dsize, n.flags + F_BIGDATA, ov)
    else n
  }

  /** me_nodemax: half the space of a page, less an offset slot. */
  function NodeMax(psize: int): int { (psize - PAGEHDRSZ) / 2 / 2 * 2 - 2 }

  /** Exactly the leaf nodes that are no larger than that stay whole. One that does not keeps its key,
      its size and its flags, F_BIGDATA besides, and of its data only the page they went to. */
  lemma StoredIff(n: Node, nodemax: int, ov: Bytes)
    requires n.Ok() && |ov| == 8 && n.Leaf? && n.flags % 2 == 0
    ensures Stored(n, nodemax, ov) == n <==> |n.Encode()| <= nodemax
    ensures var m := Stored(n, nodemax, ov);
            nodemax < |n.Encode()| ==>
              && m.Leaf? && m.key == n.key && m.dsize == |n.payload| && m.payload == ov
              && m.flags == n.flags + 1 && m.flags % 2 == 1
  {
    assert |n.Body()| == |n.key| + |n.payload|;
  }

  /** Two nodes of that size, and no two larger ones, fit on a page with their slots. */
  lemma TwoFit(psize: int, a: int, b: int)
    requires PAGEHDRSZ <= psize && 0 <= a <= b
    ensures b <= NodeMax(psize) ==> Even(a) + 2 + Even(b) + 2 <= psize - PAGEHDRSZ
    ensures NodeMax(psize) < a ==> psize - PAGEHDRSZ < Even(a) + 2 + Even(b) + 2
  {
    var h := (psize - PAGEHDRSZ) / 2;
    assert NodeMax(psize) == h / 2 * 2 - 2;
    assert NodeMax(psize) % 2 == 0;
  }

  /** The bytes from .. from + len - 1 are found d places further up, and all others where they were. */
  ghost predicate Slides(b: Bytes, b': Bytes, from: int, len: int, d: int) {
    && 0 <= from && 0 <= len && from + len <= |b| == |b'| && 0 <= from + d && from + len + d <= |b|
    && b'[from + d..from + len + d] == b[from..from + len]
    && forall k :: 0 <= k < |b| && !(from + d <= k < from + len + d) ==> b'[k] == b[k]
  }

  // ---- the page ----

  class Page {
    const leaf: bool
    const nodemax: int
    const buf: array<Byte>
    const ptrs: array<int>
    var lower: int
    var upper: int

    constructor (leaf: bool, psize: int)
      requires PAGEHDRSZ <= psize <= MAX_PAGESIZE && psize % 2 == 0
      ensures Valid() && Nodes() == [] && fresh(buf) && fresh(ptrs)
      ensures this.leaf == leaf && nodemax == NodeMax(psize) && buf.Length == upper == psize && lower == PAGEHDRSZ
    {
      this.leaf, nodemax := leaf, NodeMax(psize);
      buf := new Byte[psize](_ => 0);
      ptrs := new int[(psize - PAGEHDRSZ) / 2](_ => 0);
      lower, upper := PAGEHDRSZ, psize;
    }

    function NumKeys(): int
      reads this
    {
      (lower - PAGEHDRSZ) / 2
    }

    ghost predicate Valid()
      reads this, buf, ptrs
    {
      && PAGEHDRSZ <= lower <= upper <= buf.Length && lower % 2 == 0 && 0 <= NumKeys() <= ptrs.Length
      && ptrs.Length == (buf.Length - PAGEHDRSZ) / 2
      && Tiled(buf[..], ptrs[..NumKeys()], leaf, lower, upper)
    }

    ghost function Nodes(): seq<Bytes>
      requires Valid()
      reads this, buf, ptrs
    {
      NodesOf(buf[..], ptrs[..NumKeys()], leaf)
    }

    /** Make place indx free in the offset array. */
    method OpenPlace(indx: int, ofs: int)
      requires 0 <= indx <= NumKeys() < ptrs.Length
      modifies ptrs
      ensures Inserted(old(ptrs[..NumKeys()]), indx, ofs, ptrs[..NumKeys() + 1])
    {
      var i := NumKeys();
      while i > indx
        invariant indx <= i <= NumKeys()
        invariant forall k :: 0 <= k <= i && k < NumKeys() ==> ptrs[k] == old(ptrs[k])
        invariant forall k :: i < k <= NumKeys() ==> ptrs[k] == old(ptrs[k - 1])
      {
        ptrs[i] := ptrs[i - 1];
        i := i - 1;
      }
      ptrs[indx] := ofs;
    }

    /** memcpy into the page. */
    method Copy(at: int, bytes: Bytes)
      requires 0 <= at && at + |bytes| <= buf.Length
      modifies buf
      ensures Spliced(old(buf[..]), at, bytes, buf[..])
    {
      forall k | 0 <= k < |bytes| { buf[at + k] := bytes[k]; }
    }

    /** Write the bytes of a node. */
    method Write(ofs: int, m: Node)
      requires m.Ok() && 0 <= ofs && ofs + |m.Encode()| <= buf.Length
      modifies buf
      ensures Spliced(old(buf[..]), ofs, m.Encode(), buf[..])
    {
      Copy(ofs, m.Head());
      ghost var c := buf[..];
      Copy(ofs + NODESIZE, m.Body());
      SplicedTwice(old(buf[..]), ofs, m.Head(), c, m.Body(), buf[..]);
    }

    /** Put a node that fits just below upper, and its offset at place indx. */
    method Place(indx: int, m: Node, size: int) returns (ghost x: Bytes)
      requires Valid() && 0 <= indx <= NumKeys() && m.Ok() && m.Leaf? == leaf
      requires size == Even(|m.Encode()|) && size + 2 <= upper - lower
      modifies this, buf, ptrs
      ensures Valid() && lower == old(lower) + 2 && upper == old(upper) - size
      ensures Inserted(old(Nodes()), indx, x, Nodes()) && Holds(x, m)
    {
      hide Tiled, Node.Encode, Inserted, Spliced, Holds, Node.Ok, NodesOf, Even, NodeLen, NodeAt, HeaderLen, Fits;
      var ofs := upper - size;
      ghost var b, p, k := buf[..], ptrs[..NumKeys()], NumKeys();
      OpenPlace(indx, ofs);
      Write(ofs, m);
      upper := ofs;
      lower := lower + 2;
      assert NumKeys() == k + 1;
      AddDone(b, buf[..], p, ptrs[..NumKeys()], leaf, lower - 2, upper + size, indx, ofs, m);
      x := buf[ofs..ofs + size];
    }

    /** mdb_node_add: a new node at place indx. `ov` is the overflow page obtained for the data
        of an oversized node, empty when none could be. */
    method Add(indx: int, n: Node, ov: Bytes) returns (rc: int, ghost x: Bytes)
      requires Valid() && 0 <= indx <= NumKeys() && n.Ok() && n.Leaf? == leaf && (ov == [] || |ov| == 8)
      modifies this, buf, ptrs
      ensures Valid()
      ensures rc == MDB_PAGE_FULL <==> Even(StoredSize(n, nodemax)) + 2 > old(upper - lower)
      ensures rc == ENOMEM <==>
              Even(StoredSize(n, nodemax)) + 2 <= old(upper - lower) &&
              Stored(n, nodemax, ov) != n && ov == []
      ensures rc != MDB_SUCCESS ==>
                rc in {MDB_PAGE_FULL, ENOMEM} && Nodes() == old(Nodes()) && upper == old(upper) && lower == old(lower)
      ensures rc == MDB_SUCCESS ==>
                && upper == old(upper) - Even(StoredSize(n, nodemax)) && lower == old(lower) + 2
                && Inserted(old(Nodes()), indx, x, Nodes()) && Holds(x, Stored(n, nodemax, ov))
    {
      hide Tiled, Node.Encode, Inserted, Stored, StoredSize, Holds, Node.Ok, NodesOf, Even;
      var room := upper - lower - 2;
      var nodeSize := Even(StoredSize(n, nodemax));
      if nodeSize > room { return MDB_PAGE_FULL, []; }
      var m := Stored(n, nodemax, ov);
      if m != n && ov == [] { return ENOMEM, []; }
      StoredLen(n, nodemax, ov);
      x := Place(indx, m, nodeSize);
      rc := MDB_SUCCESS;
    }

    /** Take place indx out of the offset array; nodes below ptr will be sz bytes higher. */
    method ClosePlace(indx: int, sz: int)
      requires 0 <= indx < NumKeys() <= ptrs.Length
      modifies ptrs
      ensures Removed(old(ptrs[..NumKeys()]), ptrs[..NumKeys() - 1], indx, sz)
    {
      ghost var p := ptrs[..NumKeys()];
      var numkeys, ptr := NumKeys(), ptrs[indx];
      ghost var q := seq(numkeys - 1, k requires 0 <= k < numkeys - 1 =>
        Shift(p[if k < indx then k else k + 1], ptr, sz));
      assert Removed(p, q, indx, sz);
      hide Removed;
      var i, j := 0, 0;
      while i < numkeys
        invariant 0 <= i <= numkeys && j == if i <= indx then i else i - 1
        invariant forall k :: 0 <= k < j ==> ptrs[k] == q[k]
        invariant forall k :: i <= k < numkeys ==> ptrs[k] == p[k]
      {
        if i != indx {
          assert q[j] == Shift(p[i], ptr, sz);
          ptrs[j] := ptrs[i];
          if ptrs[j] < ptr { ptrs[j] := ptrs[j] + sz; }
          j := j + 1;
        }
        i := i + 1;
      }
      assert ptrs[..NumKeys() - 1] == q;
    }

    /** memmove within the page: the bytes from .. from + len - 1 go d places up. */
    method Slide(from: int, len: int, d: int)
      requires 0 <= from && 0 <= len && from + len <= buf.Length && 0 <= from + d && from + len + d <= buf.Length
      modifies buf
      ensures Slides(old(buf[..]), buf[..], from, len, d)
    {
      forall k | 0 <= k < len { buf[from + d + k] := buf[from + k]; }
    }

    /** mdb_node_del: remove the node at place indx, and close the gap it leaves. */
    method Del(indx: int)
      requires Valid() && 0 <= indx < NumKeys()
      modifies this, buf, ptrs
      ensures Valid() && lower == old(lower) - 2 && upper == old(upper) + |old(Nodes())[indx]|
      ensures Nodes() == old(Nodes())[..indx] + old(Nodes())[indx + 1..]
    {
      hide Tiled, Inserted, Removed, NodeLen, Fits, NodesOf, NodeAt, Slid, Slides;
      ghost var b, p, n := buf[..], ptrs[..NumKeys()], NumKeys();
      var ptr := ptrs[indx];
      NodePlace(b, p, leaf, lower, upper, indx);
      var sz := NodeLen(buf[..], ptr, leaf);
      ClosePlace(indx, sz);
      Slide(upper, ptr - upper, sz);
      lower := lower - 2;
      upper := upper + sz;
      assert NumKeys() == n - 1;
      DelDone(b, buf[..], p, ptrs[..NumKeys()], leaf, lower + 2, upper - sz, indx, sz);
    }

    /** The offsets up to that of place indx change by d. */
    method ShiftPtrs(indx: int, d: int)
      requires 0 <= indx < NumKeys() <= ptrs.Length
      requires forall k :: 0 <= k < NumKeys() && k != indx ==> ptrs[k] != ptrs[indx]
      modifies ptrs
      ensures Moved(old(ptrs[..NumKeys()]), ptrs[..NumKeys()], indx, d)
    {
      ghost var p := ptrs[..NumKeys()];
      var numkeys, ptr := NumKeys(), ptrs[indx];
      var i := 0;
      while i < numkeys
        invariant 0 <= i <= numkeys
        invariant forall k :: 0 <= k < i ==> ptrs[k] == if p[k] <= ptr then p[k] + d else p[k]
        invariant forall k :: i <= k < numkeys ==> ptrs[k] == p[k]
      {
        if ptrs[i] <= ptr { ptrs[i] := ptrs[i] + d; }
        i := i + 1;
      }
    }

    /** Write the key size and the key of the node at o. */
    method WriteKey(o: int, key: Bytes)
      requires 0 <= o && |key| <= MAXKEYSIZE && o + NODESIZE + |key| <= buf.Length
      modifies buf
      ensures Spliced(old(buf[..]), o + 6, Enc16(|key|) + key, buf[..])
    {
      Copy(o + 6, Enc16(|key|));
      ghost var c := buf[..];
      Copy(o + NODESIZE, key);
      SplicedTwice(old(buf[..]), o + 6, Enc16(|key|), c, key, buf[..]);
    }

    /** Move the node at indx and those below it, so that it can hold the new key. */
    method Resize(indx: int, ptr: int, d: int, ghost sz: int)
      requires 0 <= indx < NumKeys() <= ptrs.Length && ptr == ptrs[indx] && 0 <= upper <= ptr && 0 <= upper + d
      requires ptr + NODESIZE + d <= ptr + sz <= buf.Length && NODESIZE <= sz
      requires forall k :: 0 <= k < NumKeys() && k != indx ==> ptrs[k] != ptrs[indx]
      modifies this`upper, buf, ptrs
      ensures upper == old(upper) + d && Moved(old(ptrs[..NumKeys()]), ptrs[..NumKeys()], indx, d)
      ensures Slipped(old(buf[..]), buf[..], old(upper), ptr, sz, d)
    {
      hide Moved, Slipped;
      ghost var b := buf[..];
      MovedNone(ptrs[..NumKeys()], indx);
      if d != 0 {
        ShiftPtrs(indx, d);
        Slide(upper, ptr - upper + NODESIZE, d);
        upper := upper + d;
      }
      SlippedBy(b, buf[..], upper - d, ptr, sz, d);
    }

    /** The node at place indx, read from its bytes. */
    method Read(indx: int, ghost m: Node) returns (n: Node)
      requires Valid() && 0 <= indx < NumKeys() && m.Leaf? == leaf && Holds(Nodes()[indx], m)
      ensures n == m
    {
      hide Tiled, NodeLen, Node.Encode, Decode;
      NodePlace(buf[..], ptrs[..NumKeys()], leaf, lower, upper, indx);
      var ptr := ptrs[indx];
      var x := buf[ptr..ptr + NodeLen(buf[..], ptr, leaf)];
      DecodeEncode(m, x);
      n := Decode(x, leaf);
    }

    /** Take over the contents of a page of the same size: offsets, and all from upper on. */
    method CopyFrom(src: Page)
      requires Valid() && src.Valid() && src.leaf == leaf && src.buf.Length == buf.Length && src.buf != buf
      requires src.ptrs != ptrs && src != this
      modifies this, buf, ptrs
      ensures Valid() && Nodes() == src.Nodes() && lower == src.lower && upper == src.upper
    {
      hide Tiled, NodesOf;
      ghost var b, p := src.buf[..], src.ptrs[..src.NumKeys()];
      assert Tiled(b, p, leaf, src.lower, src.upper);
      var nkeys := src.NumKeys();
      forall i | 0 <= i < nkeys { ptrs[i] := src.ptrs[i]; }
      lower, upper := src.lower, src.upper;
      forall k | upper <= k < buf.Length { buf[k] := src.buf[k]; }
      assert NumKeys() == src.NumKeys();
      assert src.buf[..] == b;
      assert src.ptrs[..src.NumKeys()] == p;
      assert ptrs[..NumKeys()] == p;
      TiledAbove(b, buf[..], p, leaf, lower, upper);
    }

    /** Give the node at place indx another key, when there is room for it. */
    method Rekey(indx: int, key: Bytes, delta: int, ghost sz: int) returns (ghost x: Bytes)
      requires Valid() && !leaf && 0 <= indx < NumKeys() && |key| <= MAXKEYSIZE
      requires sz == |Nodes()[indx]| && delta == NODESIZE + Even(|key|) - sz && delta <= upper - lower
      modifies this, buf, ptrs
      ensures Valid() && lower == old(lower) && upper == old(upper) - delta && |x| == sz + delta
      ensures Nodes() == old(Nodes())[indx := x] && Rekeyed(old(Nodes())[indx], x, key)
    {
      hide Tiled, NodeLen, NodeAt, NodesOf, Fits, Rekeyed, BranchNode, Spliced, Slipped, Moved, Even, Decode, U16,
        HeaderLen;
      ghost var b, p := buf[..], ptrs[..NumKeys()];
      NodePlace(b, p, leaf, lower, upper, indx);
      BranchLen(b, p[indx]);
      DistinctPtrs(b, p, leaf, lower, upper);
      var ptr := ptrs[indx];
      Resize(indx, ptr, -delta, sz);
      ghost var c := buf[..];
      WriteKey(ptr - delta, key);
      EvenDelta(b, ptr, sz, |key|);
      Rewritten(b, c, buf[..], p, ptrs[..NumKeys()], lower, upper + delta, indx, sz, -delta, key);
      x := buf[ptr - delta..ptr + sz];
    }

    /** mdb_update_key on a branch page: give the node at place indx another key. When the page
        has no room for it the node is deleted, and the caller splits the page. */
    method UpdateKey(indx: int, key: Bytes) returns (rc: int, ghost x: Bytes)
      requires Valid() && !leaf && 0 <= indx < NumKeys() && |key| <= MAXKEYSIZE
      modifies this, buf, ptrs
      ensures Valid() && BranchNode(old(Nodes())[indx])
      ensures rc == NEEDS_SPLIT <==> NODESIZE + Even(|key|) - |old(Nodes())[indx]| > old(upper - lower)
      ensures rc == NEEDS_SPLIT ==> Nodes() == old(Nodes())[..indx] + old(Nodes())[indx + 1..]
      ensures rc != NEEDS_SPLIT ==>
                && rc == MDB_SUCCESS && lower == old(lower) && upper == old(upper) + |old(Nodes())[indx]| - |x|
                && Nodes() == old(Nodes())[indx := x] && Rekeyed(old(Nodes())[indx], x, key)
    {
      hide Tiled, NodeLen, NodeAt, NodesOf, Fits, Rekeyed, BranchNode, Even, U16;
      NodePlace(buf[..], ptrs[..NumKeys()], leaf, lower, upper, indx);
      BranchLen(buf[..], ptrs[indx]);
      var ksize, oksize := Even(|key|), Even(U16(buf[..], ptrs[indx] + 6));
      var delta := ksize - oksize;
      if delta > 0 && upper - lower < delta {
        Del(indx);
        return NEEDS_SPLIT, [];
      }
      x := Rekey(indx, key, delta, NODESIZE + oksize);
      rc := MDB_SUCCESS;
    }
  }

  lemma EvenDelta(b: Bytes, ptr: int, sz: int, k: int)
    requires sz == NodeLen(b, ptr, false)
    ensures (sz - NODESIZE - Even(k)) % 2 == 0 && NODESIZE <= sz && 0 <= Even(k) - k <= 1
  {
  }

  /** n bytes of b from o on stand in c from o' on. */
  ghost predicate Agree(b: Bytes, o: int, c: Bytes, o': int, n: int) {
    0 <= o && 0 <= o' && 0 <= n && o + n <= |b| && o' + n <= |c| && c[o'..o' + n] == b[o..o + n]
  }

  lemma AgreeSub(b: Bytes, o: int, c: Bytes, o': int, n: int, i: int, m: int)
    requires Agree(b, o, c, o', n) && 0 <= i && 0 <= m && i + m <= n
    ensures Agree(b, o + i, c, o' + i, m)
  {
    SubSlice(b, c, o, o + n, o', o + i, m);
  }

  lemma AgreeTrans(b: Bytes, o: int, c: Bytes, o': int, e: Bytes, o'': int, n: int)
    requires Agree(b, o, c, o', n) && Agree(c, o', e, o'', n)
    ensures Agree(b, o, e, o'', n)
  {
  }

  lemma SplicedAgree(c: Bytes, o: int, e: Bytes, b': Bytes)
    requires Spliced(c, o, e, b')
    ensures |b'| == |c| && Agree(c, 0, b', 0, o) && Agree(e, 0, b', o, |e|)
    ensures Agree(c, o + |e|, b', o + |e|, |c| - (o + |e|))
  {
    assert e[0..0 + |e|] == e && c[0..0 + o] == c[..o];
    assert b'[0..0 + o] == c[..o];
    assert b'[o..o + |e|] == e;
    assert c[o + |e|..o + |e| + (|c| - (o + |e|))] == c[o + |e|..] == b'[o + |e|..];
  }

  /** Everything from upper to the header of the node at ptr moved by d; the rest stayed. */
  ghost predicate Slipped(b: Bytes, c: Bytes, upper: int, ptr: int, sz: int, d: int) {
    && |c| == |b| && 0 <= upper <= ptr && 0 <= upper + d && NODESIZE + d <= sz && NODESIZE <= sz && ptr + sz <= |b|
    && Agree(b, upper, c, upper + d, ptr + NODESIZE - upper) && Agree(b, ptr + sz, c, ptr + sz, |b| - (ptr + sz))
  }

  lemma SlippedBy(b: Bytes, c: Bytes, upper: int, ptr: int, sz: int, d: int)
    requires |c| == |b| && 0 <= upper <= ptr && 0 <= upper + d && NODESIZE + d <= sz && NODESIZE <= sz
    requires ptr + sz <= |b|
    requires c[upper + d..ptr + NODESIZE + d] == b[upper..ptr + NODESIZE]
    requires forall k :: ptr + sz <= k < |b| ==> c[k] == b[k]
    ensures Slipped(b, c, upper, ptr, sz, d)
  {
  }

  ghost predicate BranchNode(x: Bytes) {
    NODESIZE + U16Or0(x, 6) <= |x| == Even(NODESIZE + U16Or0(x, 6))
  }

  function U16Or0(b: Bytes, o: int): int {
    if 0 <= o && o + 2 <= |b| then U16(b, o) else 0
  }

  /** The node y is the branch node x with another key. */
  ghost predicate Rekeyed(x: Bytes, y: Bytes, key: Bytes) {
    && BranchNode(x) && BranchNode(y) && NODESIZE <= |x| && NODESIZE <= |y|
    && Decode(y, false) == Branch(key, Decode(x, false).pgno)
  }

  lemma BranchFits(b: Bytes, ptr: int)
    requires 0 <= ptr && ptr + NODESIZE <= |b|
    ensures NodeLen(b, ptr, false) == NODESIZE + Even(U16(b, ptr + 6))
  {
    DecodeSlice(b, ptr, NODESIZE);
  }

  lemma BranchLen(b: Bytes, ptr: int)
    requires Fits(b, ptr, false)
    ensures NodeLen(b, ptr, false) == NODESIZE + Even(U16(b, ptr + 6)) && BranchNode(NodeAt(b, ptr, false))
  {
    BranchFits(b, ptr);
    DecodeSlice(b, ptr, NodeLen(b, ptr, false));
  }

  lemma MovedNone(p: seq<int>, indx: int)
    requires 0 <= indx < |p|
    ensures Moved(p, p, indx, 0)
  {
  }

  lemma DistinctPtrs(b: Bytes, p: seq<int>, leaf: bool, lower: int, upper: int)
    requires Tiled(b, p, leaf, lower, upper)
    ensures forall j, k :: 0 <= j < |p| && 0 <= k < |p| && j != k ==> p[j] != p[k]
  {
    forall j, k | 0 <= j < |p| && 0 <= k < |p| && j != k ensures p[j] != p[k] {
      assert if j < k then Disjoint(b, leaf, p[j], p[k]) else Disjoint(b, leaf, p[k], p[j]);
    }
  }

  /** What the moves and the two writes of UpdateKey leave. */
  lemma Rewritten(b: Bytes, c: Bytes, b': Bytes, p: seq<int>, p': seq<int>, lower: int, upper: int, indx: int,
      sz: int, d: int, key: Bytes)
    requires Tiled(b, p, false, lower, upper) && 0 <= indx < |p| && Moved(p, p', indx, d)
    requires sz == NodeLen(b, p[indx], false)
    requires |key| <= MAXKEYSIZE && Slipped(b, c, upper, p[indx], sz, d)
    requires Spliced(c, p[indx] + d + 6, Enc16(|key|) + key, b')
    requires sz - d == NODESIZE + Even(|key|) && lower <= upper + d && d % 2 == 0
    ensures Tiled(b', p', false, lower, upper + d)
    ensures 0 <= p[indx] + d <= p[indx] + sz <= |b'|
    ensures NodesOf(b', p', false) == NodesOf(b, p, false)[indx := b'[p[indx] + d..p[indx] + sz]]
    ensures Rekeyed(NodeAt(b, p[indx], false), b'[p[indx] + d..p[indx] + sz], key)
  {
    hide Tiled, Slipped, Spliced, Moved, Slid, Fits, NodeLen, NodeAt, NodesOf, Agree, Rekeyed;
    var ptr := p[indx];
    NodePlace(b, p, false, lower, upper, indx);
    RewrittenBytes(b, c, b', upper, ptr, sz, d, key);
    RewrittenNode(b, b', ptr, ptr + d, sz, key);
    ReplaceTiled(b, b', p, p', false, lower, upper, indx, sz, d);
  }

  lemma RewrittenBytes(b: Bytes, c: Bytes, b': Bytes, upper: int, ptr: int, sz: int, d: int, key: Bytes)
    requires |key| <= MAXKEYSIZE && Slipped(b, c, upper, ptr, sz, d) && Spliced(c, ptr + d + 6, Enc16(|key|) + key, b')
    requires sz - d == NODESIZE + Even(|key|)
    ensures Slid(b, b', upper, ptr, sz, d) && 0 <= ptr + d && ptr + sz <= |b'| == |b|
    ensures Agree(b, ptr, b', ptr + d, 6) && Agree(Enc16(|key|) + key, 0, b', ptr + d + 6, 2 + |key|)
  {
    hide Slid, Spliced, Agree;
    RewrittenBelow(b, c, b', upper, ptr, sz, d, Enc16(|key|) + key);
    RewrittenAbove(b, c, b', upper, ptr, sz, d, Enc16(|key|) + key);
    SlidFrom(b, b', upper, ptr, sz, d);
  }

  lemma RewrittenBelow(b: Bytes, c: Bytes, b': Bytes, upper: int, ptr: int, sz: int, d: int, e: Bytes)
    requires Slipped(b, c, upper, ptr, sz, d) && Spliced(c, ptr + d + 6, e, b')
    ensures Agree(b, upper, b', upper + d, ptr - upper) && Agree(b, ptr, b', ptr + d, 6)
    ensures Agree(e, 0, b', ptr + d + 6, |e|)
  {
    var o := ptr + d + 6;
    SplicedAgree(c, o, e, b');
    hide Spliced, Agree;
    AgreeSub(c, 0, b', 0, o, upper + d, ptr - upper);
    AgreeSub(b, upper, c, upper + d, ptr + NODESIZE - upper, 0, ptr - upper);
    AgreeTrans(b, upper, c, upper + d, b', upper + d, ptr - upper);
    AgreeSub(c, 0, b', 0, o, ptr + d, 6);
    AgreeSub(b, upper, c, upper + d, ptr + NODESIZE - upper, ptr - upper, 6);
    AgreeTrans(b, ptr, c, ptr + d, b', ptr + d, 6);
  }

  lemma RewrittenAbove(b: Bytes, c: Bytes, b': Bytes, upper: int, ptr: int, sz: int, d: int, e: Bytes)
    requires Slipped(b, c, upper, ptr, sz, d) && Spliced(c, ptr + d + 6, e, b') && ptr + d + 6 + |e| <= ptr + sz
    ensures Agree(b, ptr + sz, b', ptr + sz, |b| - (ptr + sz)) && |b'| == |b|
  {
    var o, t := ptr + d + 6 + |e|, ptr + sz;
    SplicedAgree(c, ptr + d + 6, e, b');
    hide Spliced, Agree;
    AgreeSub(c, o, b', o, |c| - o, t - o, |b| - t);
    AgreeTrans(b, t, c, t, b', t, |b| - t);
  }

  lemma SlidFrom(b: Bytes, b': Bytes, upper: int, ptr: int, sz: int, d: int)
    requires |b'| == |b| && 0 <= upper <= ptr && 0 <= upper + d && d <= sz && 0 <= sz && ptr + sz <= |b|
    requires Agree(b, upper, b', upper + d, ptr - upper) && Agree(b, ptr + sz, b', ptr + sz, |b| - (ptr + sz))
    ensures Slid(b, b', upper, ptr, sz, d)
  {
    assert b[ptr + sz..] == b[ptr + sz..ptr + sz + (|b| - (ptr + sz))];
    assert b'[ptr + sz..] == b'[ptr + sz..ptr + sz + (|b| - (ptr + sz))];
  }

  lemma RewrittenNode(b: Bytes, b': Bytes, ptr: int, ptr': int, sz: int, key: Bytes)
    requires Fits(b, ptr, false) && sz == NodeLen(b, ptr, false) && |b'| == |b|
    requires 0 <= ptr' && ptr + sz == ptr' + NODESIZE + Even(|key|) <= |b'| && |key| <= MAXKEYSIZE
    requires Agree(b, ptr, b', ptr', 6) && Agree(Enc16(|key|) + key, 0, b', ptr' + 6, 2 + |key|)
    ensures Fits(b', ptr', false) && NodeLen(b', ptr', false) == NODESIZE + Even(|key|)
    ensures NodeAt(b', ptr', false) == b'[ptr'..ptr + sz]
    ensures Rekeyed(NodeAt(b, ptr, false), b'[ptr'..ptr + sz], key)
  {
    var n := NODESIZE + Even(|key|);
    var x, y := b[ptr..ptr + sz], b'[ptr'..ptr' + n];
    RekeyedBytes(b, b', ptr, ptr', n, key);
    hide U16, Agree, HeaderLen;
    DecodeSlice(b, ptr, sz);
    DecodeSlice(b', ptr', n);
    BranchFits(b, ptr);
    BranchFits(b', ptr');
    PartOfPart(b', ptr', ptr' + n, NODESIZE, NODESIZE + |key|);
    RekeyedFrom(x, y, key);
  }

  /** The same child under the new key. */
  lemma RekeyedFrom(x: Bytes, y: Bytes, key: Bytes)
    requires NODESIZE <= |x| == NODESIZE + Even(U16(x, 6)) && NODESIZE <= |y| == NODESIZE + Even(U16(y, 6))
    requires U16(y, 0) == U16(x, 0) && U16(y, 2) == U16(x, 2) && U16(y, 4) == U16(x, 4)
    requires U16(y, 6) == |key| && y[NODESIZE..NODESIZE + |key|] == key
    ensures Rekeyed(x, y, key)
  {
    hide U16;
  }

  lemma PartOfPart(b: Bytes, lo: int, hi: int, from: int, upto: int)
    requires 0 <= lo && 0 <= from <= upto && lo + upto <= hi <= |b|
    ensures b[lo..hi][from..upto] == b[lo + from..lo + upto]
  {
    var s, t := b[lo..hi][from..upto], b[lo + from..lo + upto];
    forall k | 0 <= k < upto - from ensures s[k] == t[k] {
      assert s[k] == b[lo..hi][from + k] == b[lo + from + k];
    }
  }

  lemma RekeyedBytes(b: Bytes, b': Bytes, ptr: int, ptr': int, n: int, key: Bytes)
    requires 0 <= ptr && ptr + NODESIZE <= |b| && 0 <= ptr' && ptr' + n <= |b'| && n == NODESIZE + Even(|key|)
    requires |key| <= MAXKEYSIZE
    requires Agree(b, ptr, b', ptr', 6) && Agree(Enc16(|key|) + key, 0, b', ptr' + 6, 2 + |key|)
    ensures U16(b', ptr' + 6) == |key| && U16(b', ptr') == U16(b, ptr) && U16(b', ptr' + 2) == U16(b, ptr + 2)
    ensures U16(b', ptr' + 4) == U16(b, ptr + 4)
    ensures b'[ptr' + NODESIZE..ptr' + NODESIZE + |key|] == key
  {
    var s, s', e := b[ptr..ptr + 6], b'[ptr'..ptr' + 6], b'[ptr' + 6..ptr' + 6 + (2 + |key|)];
    assert e == (Enc16(|key|) + key)[0..0 + (2 + |key|)] == Enc16(|key|) + key;
    assert s[0] == b[ptr] && s[1] == b[ptr + 1] && s[2] == b[ptr + 2] && s[3] == b[ptr + 3] && s[4] == b[ptr + 4] &&
      s[5] == b[ptr + 5];
    assert s'[0] == b'[ptr'] && s'[1] == b'[ptr' + 1] && s'[2] == b'[ptr' + 2] && s'[3] == b'[ptr' + 3] &&
      s'[4] == b'[ptr' + 4] && s'[5] == b'[ptr' + 5];
    assert e[0] == b'[ptr' + 6] && e[1] == b'[ptr' + 7] && e[0] == Enc16(|key|)[0] && e[1] == Enc16(|key|)[1];
    assert b'[ptr' + NODESIZE..ptr' + NODESIZE + |key|] == e[2..] == key;
  }

  /** Reading a node within the page is reading its own bytes. */
  lemma DecodeSlice(b: Bytes, o: int, n: int)
    requires 0 <= o && NODESIZE <= n && o + n <= |b|
    ensures U16(b[o..o + n], 0) == U16(b, o) && U16(b[o..o + n], 2) == U16(b, o + 2)
    ensures U16(b[o..o + n], 4) == U16(b, o + 4) && U16(b[o..o + n], 6) == U16(b, o + 6)
  {
    var x := b[o..o + n];
    assert x[0] == b[o] && x[1] == b[o + 1] && x[2] == b[o + 2] && x[3] == b[o + 3];
    assert x[4] == b[o + 4] && x[5] == b[o + 5] && x[6] == b[o + 6] && x[7] == b[o + 7];
  }

  lemma DelDone(b: Bytes, b': Bytes, p: seq<int>, p': seq<int>, leaf: bool, lower: int, upper: int, indx: int, sz: int)
    requires Tiled(b, p, leaf, lower, upper) && 0 <= indx < |p| && sz == NodeLen(b, p[indx], leaf)
    requires Removed(p, p', indx, sz)
    requires 0 <= upper <= p[indx] && p[indx] + sz <= |b| && 0 <= sz
    requires Slides(b, b', upper, p[indx] - upper, sz)
    ensures |b'| == |b| && Tiled(b', p', leaf, lower - 2, upper + sz) && PAGEHDRSZ <= lower - 2 <= upper + sz <= |b|
    ensures NodesOf(b', p', leaf) == NodesOf(b, p, leaf)[..indx] + NodesOf(b, p, leaf)[indx + 1..]
  {
    SlidBy(b, b', upper, p[indx], sz, sz);
    DelTiled(b, b', p, p', leaf, lower, upper, indx, sz);
    hide NodeLen, Fits, NodeAt, Slid, Removed, AllFit, AllDisjoint;
    InsertedIs(NodesOf(b', p', leaf), indx, NodeAt(b, p[indx], leaf), NodesOf(b, p, leaf));
  }

  /** Only the bytes from upper on matter. */
  lemma TiledAbove(b: Bytes, b': Bytes, p: seq<int>, leaf: bool, lower: int, upper: int)
    requires Tiled(b, p, leaf, lower, upper) && |b'| == |b| && 0 <= upper <= |b| && forall k :: upper <= k < |b| ==>
            b'[k] == b[k]
    ensures Tiled(b', p, leaf, lower, upper) && NodesOf(b', p, leaf) == NodesOf(b, p, leaf)
  {
    AboveSame(b, b', p, leaf, upper);
    hide AllFit, AllDisjoint, NodesOf;
  }

  lemma AboveSame(b: Bytes, b': Bytes, p: seq<int>, leaf: bool, upper: int)
    requires AllFit(b, p, leaf, upper) && AllDisjoint(b, p, leaf) && |b'| == |b| && 0 <= upper <= |b|
    requires forall k :: upper <= k < |b| ==> b'[k] == b[k]
    ensures AllFit(b', p, leaf, upper) && AllDisjoint(b', p, leaf) && NodesOf(b', p, leaf) == NodesOf(b, p, leaf)
  {
    assert b'[upper..] == b[upper..];
    forall i | 0 <= i < |p| ensures Carried(b, p[i], b', p[i], leaf, upper) {
      Kept(b, b', p[i], leaf, upper);
    }
    hide NodeLen, Fits, NodeAt;
    forall i, j | 0 <= i < j < |p| ensures Disjoint(b', leaf, p[i], p[j]) {
      assert Disjoint(b, leaf, p[i], p[j]) && Carried(b, p[i], b', p[i], leaf, upper) &&
        Carried(b, p[j], b', p[j], leaf, upper);
    }
    forall i | 0 <= i < |p| ensures NodesOf(b', p, leaf)[i] == NodesOf(b, p, leaf)[i] {
      assert Carried(b, p[i], b', p[i], leaf, upper);
    }
  }

  lemma NodePlace(b: Bytes, p: seq<int>, leaf: bool, lower: int, upper: int, indx: int)
    requires Tiled(b, p, leaf, lower, upper) && 0 <= indx < |p|
    ensures 0 <= lower <= upper <= p[indx] && Fits(b, p[indx], leaf) && p[indx] + NodeLen(b, p[indx], leaf) <= |b|
    ensures |NodesOf(b, p, leaf)[indx]| == NodeLen(b, p[indx], leaf)
    ensures NodesOf(b, p, leaf)[indx] == NodeAt(b, p[indx], leaf)
  {
  }

  lemma SlidBy(b: Bytes, b': Bytes, upper: int, ptr: int, sz: int, d: int)
    requires |b'| == |b| && 0 <= upper <= ptr && 0 <= upper + d && d <= sz && 0 <= sz && ptr + sz <= |b|
    requires b'[upper + d..ptr + d] == b[upper..ptr] && forall k :: ptr + sz <= k < |b| ==> b'[k] == b[k]
    ensures Slid(b, b', upper, ptr, sz, d)
  {
  }

  /** The bytes x hold the node m, padded to an even size. */
  ghost predicate Holds(x: Bytes, m: Node) {
    m.Ok() && |x| == Even(|m.Encode()|) && x[..|m.Encode()|] == m.Encode()
  }

  lemma StoredLen(n: Node, nodemax: int, ov: Bytes)
    requires n.Ok() && (|ov| == 8 || Stored(n, nodemax, ov) == n)
    ensures Stored(n, nodemax, ov).Ok() && |Stored(n, nodemax, ov).Encode()| == StoredSize(n, nodemax) >= NODESIZE
  {
  }

  /** The bytes the stored form of n takes. */
  function StoredSize(n: Node, nodemax: int): int
    requires n.Ok()
  {
    NODESIZE + |n.key| + if n.Branch? then 0 else |Stored(n, nodemax, seq(8, _ => 0)).payload|
  }

  /** b' is b with the bytes e from ofs on. */
  ghost predicate Spliced(b: Bytes, ofs: int, e: Bytes, b': Bytes) {
    0 <= ofs && ofs + |e| <= |b| && b' == b[..ofs] + e + b[ofs + |e|..]
  }

  lemma SplicedTwice(b: Bytes, ofs: int, e: Bytes, c: Bytes, f: Bytes, d: Bytes)
    requires Spliced(b, ofs, e, c) && Spliced(c, ofs + |e|, f, d)
    ensures Spliced(b, ofs, e + f, d)
  {
    assert c[..ofs + |e|] == b[..ofs] + e;
    assert c[ofs + |e| + |f|..] == b[ofs + |e| + |f|..];
  }

  lemma SplicedParts(b: Bytes, ofs: int, e: Bytes, b': Bytes, k: int)
    requires Spliced(b, ofs, e, b') && ofs + |e| <= k <= |b|
    ensures |b'| == |b| && b'[ofs..ofs + |e|] == e && b'[k..] == b[k..]
  {
    assert forall i :: k <= i < |b| ==> b'[i] == b[i];
  }

  /** The written node reads back with its size. */
  lemma WrittenLen(b: Bytes, ofs: int, m: Node)
    requires m.Ok() && 0 <= ofs && ofs + |m.Encode()| <= |b| && b[ofs..ofs + |m.Encode()|] == m.Encode()
    ensures NodeLen(b, ofs, m.Leaf?) == Even(|m.Encode()|)
  {
    hide Node.Encode, Decode, HeaderLen, U16;
    assert b[ofs..][..|m.Encode()|] == b[ofs..ofs + |m.Encode()|];
    DecodeEncode(m, b[ofs..]);
    assert b[ofs..][..NODESIZE] == b[ofs..ofs + NODESIZE];
  }

  lemma SplicedHolds(b: Bytes, ofs: int, upper: int, m: Node)
    requires m.Ok() && 0 <= ofs && upper == ofs + Even(|m.Encode()|) <= |b| && b[ofs..ofs + |m.Encode()|] == m.Encode()
    ensures Holds(b[ofs..upper], m)
  {
    assert b[ofs..upper][..|m.Encode()|] == b[ofs..ofs + |m.Encode()|];
  }

  lemma EvenStart(b: Bytes, p: seq<int>, leaf: bool, lower: int, upper: int, ofs: int, size: int)
    requires Tiled(b, p, leaf, lower, upper) && ofs == upper - Even(size) && NODESIZE <= size
    ensures ofs % 2 == 0 && ofs + NODESIZE <= upper && ofs + Even(size) == upper
  {
  }

  /** A page with a node written at ofs, just below upper, and its offset put at place indx. */
  lemma AddDone(b: Bytes, b': Bytes, p: seq<int>, p': seq<int>, leaf: bool, lower: int, upper: int, indx: int,
      ofs: int, m: Node)
    requires Tiled(b, p, leaf, lower, upper) && m.Ok() && m.Leaf? == leaf && Inserted(p, indx, ofs, p')
    requires Spliced(b, ofs, m.Encode(), b') && ofs == upper - Even(|m.Encode()|) && lower + 2 <= ofs
    ensures Tiled(b', p', leaf, lower + 2, ofs)
    ensures Inserted(NodesOf(b, p, leaf), indx, b'[ofs..upper], NodesOf(b', p', leaf))
    ensures Holds(b'[ofs..upper], m)
  {
    assert upper <= |b| && 0 <= ofs && |b'| == |b|;
    EvenStart(b, p, leaf, lower, upper, ofs, |m.Encode()|);
    hide Tiled, Inserted, Node.Encode, Spliced, HeaderLen, NodeLen, NodeAt, NodesOf, Node.Ok, Holds;
    SplicedParts(b, ofs, m.Encode(), b', upper);
    WrittenLen(b', ofs, m);
    SplicedHolds(b', ofs, upper, m);
    hide Even;
    AddTiled(b, b', p, p', leaf, lower, upper, indx, ofs);
  }
}
