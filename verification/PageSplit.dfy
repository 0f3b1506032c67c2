/** mdb_page_split: cut a full page in two, and place a new node on the way. */
module PageSplit {
  import opened ByteOrder
  import opened SlottedPage
  import opened PageNodes
  import opened SplitPoint

  /** The page's nodes are those of `view`. */
  ghost predicate Shows(nodes: seq<Bytes>, view: seq<Node>) {
    |nodes| == |view| && forall i :: 0 <= i < |view| ==> Holds(nodes[i], view[i])
  }

  /** A node and its slot in the offset array. */
  function ItemSize(n: Node): int {
    Even(NODESIZE + |n.key| + if n.Leaf? then |n.payload| else 0) + 2
  }

  function Sizes(view: seq<Node>): (r: seq<int>)
    ensures |r| == |view| && forall i :: 0 <= i < |r| ==> r[i] == ItemSize(view[i])
  {
    seq(|view|, i requires 0 <= i < |view| => ItemSize(view[i]))
  }

  /** Nodes of one kind, stored as they are: none needs an overflow page of its own. */
  ghost predicate Plain(view: seq<Node>, leaf: bool, nodemax: int) {
    forall i :: 0 <= i < |view| ==> PlainNode(view[i], leaf, nodemax)
  }

  ghost predicate PlainNode(n: Node, leaf: bool, nodemax: int) {
    n.Ok() && n.Leaf? == leaf && Stored(n, nodemax, []) == n
  }

  /** The first node of a branch page needs no key. */
  function Lead(n: Node): Node { if n.Branch? then n.(key := []) else n }

  /** The items lo .. hi - 1 as a page of their own. */
  function Part(all: seq<Node>, lo: int, hi: int): (r: seq<Node>)
    requires 0 <= lo <= hi <= |all|
    ensures |r| == hi - lo && forall i :: 0 <= i < |r| ==> r[i] == if i == 0 then Lead(all[lo]) else all[lo + i]
  {
    seq(hi - lo, i requires 0 <= i < hi - lo => if i == 0 then Lead(all[lo]) else all[lo + i])
  }

  function WithNew(view: seq<Node>, newindx: int, m: Node): (r: seq<Node>)
    requires 0 <= newindx <= |view|
    ensures |r| == |view| + 1
  {
    view[..newindx] + [m] + view[newindx..]
  }

  lemma SumGrows(all: seq<Node>, lo: int, i: int)
    requires 0 <= lo <= i < |all|
    ensures Sum(Sizes(Part(all, lo, i + 1))) == Sum(Sizes(Part(all, lo, i))) + ItemSize(Part(all, lo, i + 1)[i - lo])
  {
    var p, q := Part(all, lo, i), Part(all, lo, i + 1);
    assert Sizes(q)[..|q| - 1] == Sizes(p);
  }

  lemma {:induction false} SumMono(all: seq<Node>, lo: int, i: int, hi: int)
    requires 0 <= lo <= i <= hi <= |all|
    ensures Sum(Sizes(Part(all, lo, i))) <= Sum(Sizes(Part(all, lo, hi)))
    decreases hi - i
  {
    if i < hi {
      SumMono(all, lo, i + 1, hi);
      SumGrows(all, lo, i);
    }
  }

  lemma ShowsInsert(nodes: seq<Bytes>, view: seq<Node>, x: Bytes, m: Node, nodes': seq<Bytes>)
    requires Shows(nodes, view) && Inserted(nodes, |view|, x, nodes') && Holds(x, m)
    ensures Shows(nodes', view + [m])
  {
  }

  /** What mdb_node_add stores of an item, and the room that takes. */
  lemma StoredItem(n: Node, nodemax: int, ov: Bytes)
    requires n.Ok() && |ov| == 8
    ensures Lead(n).Ok() && Stored(Lead(n), nodemax, ov) == Lead(Stored(n, nodemax, ov))
    ensures Even(StoredSize(n, nodemax)) + 2 == ItemSize(Stored(n, nodemax, ov))
    ensures Even(StoredSize(Lead(n), nodemax)) + 2 == ItemSize(Lead(Stored(n, nodemax, ov)))
  {
  }

  lemma PlainStored(n: Node, leaf: bool, nodemax: int, ov: Bytes)
    requires PlainNode(n, leaf, nodemax)
    ensures Stored(n, nodemax, ov) == n
  {
  }

  /** The item at place i of the page to be, and the one of the old page it is. */
  lemma ItemAt(view: seq<Node>, newindx: int, m: Node, i: int)
    requires 0 <= newindx <= |view| && 0 <= i <= |view|
    ensures WithNew(view, newindx, m)[i] == if i == newindx then m else view[if i < newindx then i else i - 1]
  {
  }

  /** The item of place i, read from the old page or new; the first one of a branch page is
      moved without its key. */
  method FetchItem(mp: Page, newindx: int, n: Node, ov: Bytes, i: int, j: int, ghost view: seq<Node>)
    returns (item: Node)
    requires mp.Valid() && Shows(mp.Nodes(), view) && Plain(view, mp.leaf, mp.nodemax)
    requires 0 <= newindx <= |view| && 0 <= i <= |view| && n.Ok() && n.Leaf? == mp.leaf && |ov| == 8
    ensures item.Ok() && item.Leaf? == mp.leaf
    ensures var m := WithNew(view, newindx, Stored(n, mp.nodemax, ov))[i];
            Stored(item, mp.nodemax, ov) == if j == 0 then Lead(m) else m
    ensures Even(StoredSize(item, mp.nodemax)) + 2 == ItemSize(Stored(item, mp.nodemax, ov))
  {
    hide SlottedPage.Tiled, Holds, Node.Ok, StoredSize, ItemSize, Stored;
    item := n;
    ItemAt(view, newindx, Stored(n, mp.nodemax, ov), i);
    if i != newindx {
      var k := if i < newindx then i else i - 1;
      assert PlainNode(view[k], mp.leaf, mp.nodemax);
      item := mp.Read(k, view[k]);
      PlainStored(item, mp.leaf, mp.nodemax, ov);
    }
    StoredItem(item, mp.nodemax, ov);
    if !mp.leaf && j == 0 { item := Branch([], item.pgno); }
  }

  /** The page so far and one more item. */
  lemma PartNext(all: seq<Node>, lo: int, i: int, nodes: seq<Bytes>, nodes': seq<Bytes>, x: Bytes)
    requires 0 <= lo <= i < |all| && Shows(nodes, Part(all, lo, i))
    requires Inserted(nodes, i - lo, x, nodes') && Holds(x, if i == lo then Lead(all[i]) else all[i])
    ensures Shows(nodes', Part(all, lo, i + 1))
  {
    var m := if i == lo then Lead(all[i]) else all[i];
    ShowsInsert(nodes, Part(all, lo, i), x, m, nodes');
    assert Part(all, lo, i + 1) == Part(all, lo, i) + [m];
  }

  lemma PartStart(all: seq<Node>, lo: int)
    requires 0 <= lo <= |all|
    ensures Shows([], Part(all, lo, lo)) && Sum(Sizes(Part(all, lo, lo))) == 0
  {
  }

  /** Room for one more item. */
  lemma RoomNext(all: seq<Node>, lo: int, i: int, hi: int, size: int, room: int)
    requires 0 <= lo <= i < hi <= |all| && size == ItemSize(if i == lo then Lead(all[i]) else all[i])
    ensures Sum(Sizes(Part(all, lo, i + 1))) == Sum(Sizes(Part(all, lo, i))) + size
    ensures Sum(Sizes(Part(all, lo, i + 1))) > room ==> Sum(Sizes(Part(all, lo, hi))) > room
  {
    SumGrows(all, lo, i);
    SumMono(all, lo, i + 1, hi);
  }

  /** Move the items from .. upto - 1 to an empty page: `view` are the nodes of mp, and n
      stands among them at newindx. */
  method MoveItems(mp: Page, dst: Page, newindx: int, n: Node, ov: Bytes, from: int, upto: int, ghost view: seq<Node>,
      ghost all: seq<Node>)
    returns (rc: int)
    requires mp.Valid() && dst.Valid() && mp != dst && mp.buf != dst.buf && mp.ptrs != dst.ptrs && mp.leaf == dst.leaf
    requires mp.nodemax == dst.nodemax
    requires Shows(mp.Nodes(), view) && Plain(view, mp.leaf, mp.nodemax) && 0 <= newindx <= |view|
    requires n.Ok() && n.Leaf? == mp.leaf && |ov| == 8 && all == WithNew(view, newindx, Stored(n, mp.nodemax, ov))
    requires dst.Nodes() == [] && 0 <= from <= upto <= |view| + 1
    modifies dst, dst.buf, dst.ptrs
    ensures dst.Valid()
    ensures rc == if Sum(Sizes(Part(all, from, upto))) <= old(dst.upper - dst.lower) then MDB_SUCCESS else MDB_PAGE_FULL
    ensures rc == MDB_SUCCESS ==> Shows(dst.Nodes(), Part(all, from, upto))
  {
    hide SlottedPage.Tiled, Shows, Sizes, Part, Sum, Holds, Node.Ok, Stored, StoredSize, ItemSize, WithNew, Plain,
      Inserted;
    var i, j := from, 0;
    ghost var room := dst.upper - dst.lower;
    PartStart(all, from);
    while i < upto
      invariant from <= i <= upto && j == i - from
      invariant dst.Valid() && Shows(dst.Nodes(), Part(all, from, i)) && |dst.Nodes()| == j
      invariant 0 <= dst.upper - dst.lower == room - Sum(Sizes(Part(all, from, i)))
    {
      var item := FetchItem(mp, newindx, n, ov, i, j, view);
      ghost var nodes, x := dst.Nodes(), [];
      RoomNext(all, from, i, upto, ItemSize(Stored(item, mp.nodemax, ov)), room);
      rc, x := dst.Add(j, item, ov);
      if rc != MDB_SUCCESS { return; }
      PartNext(all, from, i, nodes, dst.Nodes(), x);
      InsertedIs(nodes, j, x, dst.Nodes());
      i := i + 1;
      j := j + 1;
    }
    rc := MDB_SUCCESS;
  }

  /** Nothing is lost: the two parts are the old nodes and the new one, in order. On a branch
      page the keys that lead a part are gone; that of the right part is the separator. */
  lemma PartsJoin(all: seq<Node>, split: int)
    requires 0 < split < |all|
    ensures var r := Part(all, 0, split) + Part(all, split, |all|);
            && |r| == |all| && forall k :: 0 <= k < |all| ==>
              r[k] == if k == 0 || k == split then Lead(all[k]) else all[k]
  {
    hide Lead, Part;
    var r := Part(all, 0, split) + Part(all, split, |all|);
    forall k | 0 <= k < |all| ensures r[k] == if k == 0 || k == split then Lead(all[k]) else all[k] {
    }
  }

  // ---- sizes of whole pages ----

  /** With keys of at most 511 bytes, two nodes fit in a page of this size or larger. */
  const MIN_PSIZE := 1076

  lemma ItemsSmall(n: Node, leaf: bool, psize: int)
    requires PlainNode(n, leaf, NodeMax(psize)) && MIN_PSIZE <= psize
    ensures MIN_ITEM <= ItemSize(n) && 2 * ItemSize(n) <= psize - PAGEHDRSZ
  {
  }

  lemma HoldsSize(x: Bytes, m: Node)
    requires Holds(x, m)
    ensures |x| + 2 == ItemSize(m)
  {
  }

  lemma {:induction false} TotalSizes(nodes: seq<Bytes>, view: seq<Node>)
    requires Shows(nodes, view)
    ensures Sum(Sizes(view)) == Total(nodes) + 2 * |nodes|
    decreases |nodes|
  {
    hide ItemSize, Holds;
    if nodes != [] {
      var k := |nodes| - 1;
      TotalSizes(nodes[..k], view[..k]);
      assert Sizes(view)[..k] == Sizes(view[..k]);
      assert Holds(nodes[k], view[k]);
      HoldsSize(nodes[k], view[k]);
    }
  }

  /** The free space of a page. */
  lemma PageRoom(p: Page, view: seq<Node>)
    requires p.Valid() && Shows(p.Nodes(), view)
    ensures p.upper - p.lower == p.buf.Length - PAGEHDRSZ - Sum(Sizes(view)) && p.NumKeys() == |view|
  {
    TotalSizes(p.Nodes(), view);
  }

  /** A page too full for the new node. */
  lemma PageFull(p: Page, view: seq<Node>, newindx: int, m: Node)
    requires p.Valid() && Shows(p.Nodes(), view) && Plain(view, p.leaf, p.nodemax) && p.nodemax == NodeMax(p.buf.Length)
    requires 0 <= newindx <= |view| && PlainNode(m, p.leaf, p.nodemax) && MIN_PSIZE <= p.buf.Length
    requires p.upper - p.lower < ItemSize(m)
    ensures Full(Sizes(WithNew(view, newindx, m)), newindx, p.buf.Length - PAGEHDRSZ)
  {
    hide SlottedPage.Tiled, Shows, ItemSize, NodeMax, PlainNode, Sum;
    var pmax, all := p.buf.Length - PAGEHDRSZ, WithNew(view, newindx, m);
    PageRoom(p, view);
    SumWith(view, newindx, m);
    AllSmall(view, newindx, m, p.leaf, p.buf.Length);
    if |all| < 3 { AtMostTwo(Sizes(all), pmax); }
  }

  lemma SumWith(view: seq<Node>, newindx: int, m: Node)
    requires 0 <= newindx <= |view|
    ensures Sum(Sizes(WithNew(view, newindx, m))) == Sum(Sizes(view)) + ItemSize(m)
    ensures Sizes(WithNew(view, newindx, m))[newindx] == ItemSize(m)
  {
    hide ItemSize;
    var s, t := Sizes(view), Sizes(WithNew(view, newindx, m));
    SumAround(t, newindx);
    SumSplit(s, newindx);
    assert t[..newindx] == s[..newindx] && t[newindx + 1..] == s[newindx..];
  }

  lemma AllSmall(view: seq<Node>, newindx: int, m: Node, leaf: bool, psize: int)
    requires 0 <= newindx <= |view| && Plain(view, leaf, NodeMax(psize)) && PlainNode(m, leaf, NodeMax(psize))
    requires MIN_PSIZE <= psize
    ensures var all := WithNew(view, newindx, m);
            && (forall k :: 0 <= k < |all| ==> PlainNode(all[k], leaf, NodeMax(psize)))
            && forall k :: 0 <= k < |all| ==> MIN_ITEM <= Sizes(all)[k] && 2 * Sizes(all)[k] <= psize - PAGEHDRSZ
  {
    hide ItemSize, NodeMax, PlainNode;
    var all := WithNew(view, newindx, m);
    forall k | 0 <= k < |all|
      ensures PlainNode(all[k], leaf, NodeMax(psize)) && MIN_ITEM <= Sizes(all)[k]
      ensures 2 * Sizes(all)[k] <= psize - PAGEHDRSZ
    {
      ItemAt(view, newindx, m, k);
      assert all[k] == m || PlainNode(view[if k < newindx then k else k - 1], leaf, NodeMax(psize));
      ItemsSmall(all[k], leaf, psize);
    }
  }

  lemma AtMostTwo(s: seq<int>, pmax: int)
    requires 1 <= |s| <= 2 && forall k :: 0 <= k < |s| ==> 2 * s[k] <= pmax && 0 <= s[k]
    ensures Sum(s) <= pmax
  {
    assert Sum(s[..0]) == 0;
    SumNext(s, 0);
    if |s| == 2 { SumNext(s, 1); assert s[..2] == s; } else { assert s[..1] == s; }
  }

  /** The two pages are as large as the split point was chosen for. */
  lemma PartSizes(all: seq<Node>, split: int, leaf: bool)
    requires 0 < split < |all| && forall k :: 0 <= k < |all| ==> all[k].Leaf? == leaf
    ensures Sum(Sizes(Part(all, split, |all|))) == RightSize(Sizes(all), split, leaf)
    ensures Sum(Sizes(Part(all, 0, split))) == LeftSize(Sizes(all), split, leaf)
  {
    RightPart(all, split, leaf);
    LeftPart(all, split, leaf);
  }

  lemma RightPart(all: seq<Node>, split: int, leaf: bool)
    requires 0 < split < |all| && all[split].Leaf? == leaf
    ensures Sum(Sizes(Part(all, split, |all|))) == RightSize(Sizes(all), split, leaf)
  {
    hide Sum;
    var s, r := Sizes(all)[split..], Sizes(Part(all, split, |all|));
    assert |r| == |s| && r[1..] == s[1..];
    SumHead(s);
    SumHead(r);
  }

  lemma LeftPart(all: seq<Node>, split: int, leaf: bool)
    requires 0 < split < |all| && all[0].Leaf? == leaf
    ensures Sum(Sizes(Part(all, 0, split))) == LeftSize(Sizes(all), split, leaf)
  {
    hide Sum;
    var s, l := Sizes(all)[..split], Sizes(Part(all, 0, split));
    assert l[1..] == s[1..];
    SumHead(s);
    SumHead(l);
  }

  // ---- the split ----

  /** The sizes of the items, the new one among them. */
  method Measure(mp: Page, newindx: int, n: Node, ov: Bytes, ghost view: seq<Node>) returns (sizes: seq<int>)
    requires mp.Valid() && Shows(mp.Nodes(), view) && Plain(view, mp.leaf, mp.nodemax)
    requires 0 <= newindx <= |view| && n.Ok() && n.Leaf? == mp.leaf && |ov| == 8
    ensures sizes == Sizes(WithNew(view, newindx, Stored(n, mp.nodemax, ov)))
  {
    hide SlottedPage.Tiled, ItemSize, Node.Ok, WithNew, Holds, Shows, Plain, Stored, StoredSize, Sizes, NodesOf, Lead,
      Sum;
    ghost var all := WithNew(view, newindx, Stored(n, mp.nodemax, ov));
    sizes := [];
    var nkeys := mp.NumKeys();
    PageRoom(mp, view);
    var i := 0;
    while i <= nkeys
      invariant 0 <= i <= nkeys + 1 && |sizes| == i && forall k :: 0 <= k < i ==> sizes[k] == ItemSize(all[k])
    {
      var item := FetchItem(mp, newindx, n, ov, i, 1, view);
      sizes := sizes + [ItemSize(Stored(item, mp.nodemax, ov))];
      i := i + 1;
    }
  }

  lemma PageSize(p: Page)
    requires p.Valid()
    ensures PAGEHDRSZ <= p.buf.Length <= MAX_PAGESIZE && p.buf.Length % 2 == 0
  {
  }

  /** Where a new node ended up. */
  datatype Place = Place(onRight: bool, ki: int)

  /** Do both pages hold their part? */
  ghost predicate PartsFit(all: seq<Node>, split: int, pmax: int) {
    0 < split < |all| && Sum(Sizes(Part(all, 0, split))) <= pmax && Sum(Sizes(Part(all, split, |all|))) <= pmax
  }

  /** The left page, the right page, the separator and the cursor after a split. */
  ghost predicate Done(mp: seq<Bytes>, rp: seq<Bytes>, all: seq<Node>, split: int, newindx: int, sep: Bytes,
      at: Place) {
    && 0 < split < |all| && 0 <= newindx < |all| && sep == all[split].key
    && Shows(mp, Part(all, 0, split)) && Shows(rp, Part(all, split, |all|))
    && at.onRight == (split <= newindx)
    && 0 <= at.ki < |(if at.onRight then rp else mp)|
    && Holds((if at.onRight then rp else mp)[at.ki], if at.ki == 0 then Lead(all[newindx]) else all[newindx])
  }

  /** The split point, and the separator key for the parent. */
  method Choose(mp: Page, newindx: int, n: Node, ov: Bytes, ghost view: seq<Node>) returns (split: int, sep: Bytes)
    requires mp.Valid() && Shows(mp.Nodes(), view) && Plain(view, mp.leaf, mp.nodemax)
    requires mp.nodemax == NodeMax(mp.buf.Length)
    requires 0 <= newindx <= |view| && n.Ok() && n.Leaf? == mp.leaf && |ov| == 8 && MIN_PSIZE <= mp.buf.Length
    requires mp.upper - mp.lower < ItemSize(Stored(n, mp.nodemax, ov))
    ensures var all := WithNew(view, newindx, Stored(n, mp.nodemax, ov));
            var pmax := mp.buf.Length - PAGEHDRSZ;
            && 0 < split < |all| == |view| + 1 && sep == all[split].key
            && (PartsFit(all, split, pmax) <==>
              Sum(Sizes(Part(all, 0, split))) <= pmax && Sum(Sizes(Part(all, split, |all|))) <= pmax)
            && split == SplitIndex(Sizes(all), newindx, mp.leaf, pmax, mp.buf.Length / 128)
            && (PartsFit(all, split, pmax) <==>
                  || |view| < mp.buf.Length / 128 || newindx == |view|
                  || ItemSize(Stored(n, mp.nodemax, ov)) > pmax / 16
                  || MiddleRoom(Sizes(all), newindx, mp.leaf, pmax))
  {
    hide SlottedPage.Tiled, ItemSize, Node.Ok, WithNew, Holds, Shows, Plain, Stored, StoredSize, Sizes, NodesOf, Lead,
      Part, Sum,
         NodeMax, Full, BothFit, PartsFit, MiddleRoom, SplitIndex;
    ghost var all := WithNew(view, newindx, Stored(n, mp.nodemax, ov));
    var psize := mp.buf.Length;
    StoredPlain(n, mp.leaf, mp.nodemax, ov);
    PageFull(mp, view, newindx, Stored(n, mp.nodemax, ov));
    var sizes := Measure(mp, newindx, n, ov, view);
    split := FindSplit(sizes, newindx, mp.leaf, psize - PAGEHDRSZ, psize / 128);
    SplitFitsIff(sizes, newindx, mp.leaf, psize - PAGEHDRSZ, psize / 128);
    SumWith(view, newindx, Stored(n, mp.nodemax, ov));
    FitsParts(view, all, newindx, n, mp.nodemax, ov, split, mp.leaf, psize - PAGEHDRSZ, psize / 128);
    sep := n.key;
    if split != newindx {
      var item := FetchItem(mp, newindx, n, ov, split, 1, view);
      sep := item.key;
    }
  }

  /** Cut the full page mp in two and add the node n at place newindx. It succeeds iff the split
      point was looked for, or the half with the new node has room for it. */
  method Split(mp: Page, newindx: int, n: Node, ov: Bytes, ghost view: seq<Node>)
    returns (rc: int, rp: Page, sep: Bytes, at: Place, ghost split: int)
    requires mp.Valid() && Shows(mp.Nodes(), view) && Plain(view, mp.leaf, mp.nodemax)
    requires mp.nodemax == NodeMax(mp.buf.Length)
    requires 0 <= newindx <= |view| && n.Ok() && n.Leaf? == mp.leaf && |ov| == 8 && MIN_PSIZE <= mp.buf.Length
    requires mp.upper - mp.lower < ItemSize(Stored(n, mp.nodemax, ov))
    modifies mp, mp.buf, mp.ptrs
    ensures var all := WithNew(view, newindx, Stored(n, mp.nodemax, ov));
            var pmax := mp.buf.Length - PAGEHDRSZ;
            && split == SplitIndex(Sizes(all), newindx, mp.leaf, pmax, mp.buf.Length / 128)
            && (rc == MDB_SUCCESS <==>
                  || |view| < mp.buf.Length / 128 || newindx == |view|
                  || ItemSize(Stored(n, mp.nodemax, ov)) > pmax / 16
                  || MiddleRoom(Sizes(all), newindx, mp.leaf, pmax))
            && (rc != MDB_SUCCESS ==> rc == MDB_PAGE_FULL)
            && (rc == MDB_SUCCESS ==>
                  mp.Valid() && rp.Valid() && Done(mp.Nodes(), rp.Nodes(), all, split, newindx, sep, at))
  {
    hide SlottedPage.Tiled, ItemSize, Node.Ok, WithNew, Holds, Shows, Plain, Stored, StoredSize, Sizes, NodesOf, Lead,
      Part, Sum,
         NodeMax, Full, BothFit, PartsFit, Done, MiddleRoom, SplitIndex;
    ghost var all := WithNew(view, newindx, Stored(n, mp.nodemax, ov));
    var psize, nkeys := mp.buf.Length, mp.NumKeys();
    var pmax := psize - PAGEHDRSZ;
    PageRoom(mp, view);
    PageSize(mp);
    rp := new Page(mp.leaf, psize);
    at := Place(false, newindx);
    var s;
    s, sep := Choose(mp, newindx, n, ov, view);
    split := s;
    rc := MoveItems(mp, rp, newindx, n, ov, s, nkeys + 1, view, all);
    if rc != MDB_SUCCESS { return; }
    var copy := new Page(mp.leaf, psize);
    rc := MoveItems(mp, copy, newindx, n, ov, 0, s, view, all);
    if rc != MDB_SUCCESS { return; }
    mp.CopyFrom(copy);
    at := if newindx < s then Place(false, newindx) else Place(true, newindx - s);
    DoneIs(mp.Nodes(), rp.Nodes(), all, split, newindx, sep, at);
  }

  lemma StoredPlain(n: Node, leaf: bool, nodemax: int, ov: Bytes)
    requires n.Ok() && n.Leaf? == leaf && |ov| == 8
    ensures PlainNode(Stored(n, nodemax, ov), leaf, nodemax) && Stored(n, nodemax, ov).key == n.key
  {
  }

  lemma FitsParts(view: seq<Node>, all: seq<Node>, newindx: int, n: Node, nodemax: int, ov: Bytes, split: int,
      leaf: bool, pmax: int, keythresh: int)
    requires n.Ok() && n.Leaf? == leaf && |ov| == 8 && 0 <= newindx <= |view| && Plain(view, leaf, nodemax)
    requires all == WithNew(view, newindx, Stored(n, nodemax, ov)) && 0 < split < |all|
    ensures BothFit(Sizes(all), split, leaf, pmax) <==> PartsFit(all, split, pmax)
    ensures |all| == |view| + 1 && all[newindx].key == n.key
    ensures PartsFit(all, split, pmax) <==>
            Sum(Sizes(Part(all, 0, split))) <= pmax && Sum(Sizes(Part(all, split, |all|))) <= pmax
  {
    hide Sum, Sizes, Part, ItemSize;
    StoredPlain(n, leaf, nodemax, ov);
    forall k | 0 <= k < |all| ensures all[k].Leaf? == leaf {
      ItemAt(view, newindx, Stored(n, nodemax, ov), k);
      assert k == newindx || PlainNode(view[if k < newindx then k else k - 1], leaf, nodemax);
    }
    PartSizes(all, split, leaf);
  }

  lemma DoneIs(l: seq<Bytes>, r: seq<Bytes>, all: seq<Node>, split: int, newindx: int, sep: Bytes, at: Place)
    requires 0 < split < |all| && 0 <= newindx < |all| && sep == all[split].key
    requires Shows(l, Part(all, 0, split)) && Shows(r, Part(all, split, |all|))
    requires at == if newindx < split then Place(false, newindx) else Place(true, newindx - split)
    ensures Done(l, r, all, split, newindx, sep, at)
  {
    hide Holds, Lead;
    if newindx < split {
      assert Holds(l[newindx], Part(all, 0, split)[newindx]);
    } else {
      assert Holds(r[newindx - split], Part(all, split, |all|)[newindx - split]);
    }
  }
}
