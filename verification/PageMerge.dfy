/** mdb_page_merge and mdb_node_move on the pages themselves. */
module PageMerge {
  import opened ByteOrder
  import opened SlottedPage
  import opened PageNodes
  import opened PageSplit
  import opened SplitPoint
  import BTree
  import Rebalance

  /** A branch node that led its page gets its key back, the lowest key below it. */
  function Restored(n: Node, first: bool, low: Bytes): Node {
    if first && n.Branch? then Branch(low, n.pgno) else n
  }

  function RestoredView(view: seq<Node>, low: Bytes): (r: seq<Node>)
    ensures |r| == |view| && forall i :: 0 <= i < |r| ==> r[i] == Restored(view[i], i == 0, low)
  {
    seq(|view|, i requires 0 <= i < |view| => Restored(view[i], i == 0, low))
  }

  lemma AppendSize(view: seq<Node>, n: Node)
    ensures Sum(Sizes(view + [n])) == Sum(Sizes(view)) + ItemSize(n)
  {
    assert Sizes(view + [n])[..|view|] == Sizes(view);
  }

  lemma {:induction false} PrefixSize(view: seq<Node>, more: seq<Node>, i: int)
    requires 0 <= i <= |more|
    ensures Sum(Sizes(view + more[..i])) <= Sum(Sizes(view + more))
    decreases |more| - i
  {
    if i < |more| {
      PrefixSize(view, more, i + 1);
      AppendSize(view + more[..i], more[i]);
      assert view + more[..i + 1] == view + more[..i] + [more[i]];
    } else {
      assert more[..i] == more;
    }
  }

  lemma RestoredPlain(n: Node, first: bool, low: Bytes, leaf: bool, nodemax: int)
    requires PlainNode(n, leaf, nodemax) && |low| <= MAXKEYSIZE
    ensures var m := Restored(n, first, low);
            && PlainNode(m, leaf, nodemax) && (forall ov :: Stored(m, nodemax, ov) == m)
            && Even(StoredSize(m, nodemax)) + 2 == ItemSize(m)
  {
  }

  /** One node of src, with its key restored when it led its page. */
  method ReadRestored(src: Page, i: int, low: Bytes, ghost view: seq<Node>) returns (n: Node)
    requires src.Valid() && Shows(src.Nodes(), view) && Plain(view, src.leaf, src.nodemax) && 0 <= i < |view|
    requires |low| <= MAXKEYSIZE
    ensures n == Restored(view[i], i == 0, low) && PlainNode(n, src.leaf, src.nodemax)
    ensures Stored(n, src.nodemax, []) == n && Even(StoredSize(n, src.nodemax)) + 2 == ItemSize(n)
  {
    hide SlottedPage.Tiled, Holds, Stored, StoredSize, ItemSize;
    assert PlainNode(view[i], src.leaf, src.nodemax) && Holds(src.Nodes()[i], view[i]);
    PageRoom(src, view);
    n := src.Read(i, view[i]);
    RestoredPlain(n, i == 0, low, src.leaf, src.nodemax);
    if i == 0 && n.Branch? { n := Branch(low, n.pgno); }
  }

  lemma Appended(nodes: seq<Bytes>, view: seq<Node>, m: Node, x: Bytes, nodes': seq<Bytes>)
    requires Shows(nodes, view) && Inserted(nodes, |view|, x, nodes') && Holds(x, m)
    ensures Shows(nodes', view + [m])
  {
    ShowsInsert(nodes, view, x, m, nodes');
  }

  /** mdb_page_merge: all nodes of src go to the end of dst. */
  method MergePages(src: Page, dst: Page, low: Bytes, ghost sv: seq<Node>, ghost dv: seq<Node>) returns (rc: int)
    requires src.Valid() && dst.Valid() && src != dst && src.buf != dst.buf && src.ptrs != dst.ptrs
    requires src.leaf == dst.leaf && src.nodemax == dst.nodemax && |low| <= MAXKEYSIZE
    requires Shows(src.Nodes(), sv) && Plain(sv, src.leaf, src.nodemax) && Shows(dst.Nodes(), dv)
    modifies dst, dst.buf, dst.ptrs
    ensures dst.Valid()
    ensures var used := Sum(Sizes(dv + RestoredView(sv, low)));
            rc == if used <= dst.buf.Length - PAGEHDRSZ then MDB_SUCCESS else MDB_PAGE_FULL
    ensures rc == MDB_SUCCESS ==> Shows(dst.Nodes(), dv + RestoredView(sv, low))
  {
    hide SlottedPage.Tiled, Shows, Sizes, Sum, Holds, Node.Ok, Stored, StoredSize, ItemSize, Plain, Inserted,
      RestoredView, Restored;
    ghost var more := RestoredView(sv, low);
    PageRoom(src, sv);
    PageRoom(dst, dv);
    var i, n, j := 0, src.NumKeys(), dst.NumKeys();
    assert dv + more[..0] == dv;
    while i < n
      invariant 0 <= i <= n == |more| && j == |dv| + i && dst.Valid() && Shows(dst.Nodes(), dv + more[..i])
      invariant dst.NumKeys() == j
      invariant dst.upper - dst.lower == dst.buf.Length - PAGEHDRSZ - Sum(Sizes(dv + more[..i]))
    {
      var m := ReadRestored(src, i, low, sv);
      ghost var nodes, x := dst.Nodes(), [];
      AppendSize(dv + more[..i], m);
      assert dv + more[..i + 1] == dv + more[..i] + [m];
      PrefixSize(dv, more, i + 1);
      rc, x := dst.Add(j, m, []);
      if rc != MDB_SUCCESS { return; }
      Appended(nodes, dv + more[..i], m, x, dst.Nodes());
      i := i + 1;
      j := j + 1;
      PageRoom(dst, dv + more[..i]);
    }
    assert more[..i] == more;
    rc := MDB_SUCCESS;
  }

  // ---- changing the key that leads a branch page ----

  lemma Enc16Inverse(b: Bytes, o: int)
    requires 0 <= o && o + 2 <= |b|
    ensures Enc16(U16(b, o)) == [b[o], b[o + 1]]
  {
  }

  lemma HeadInverse(y: Bytes)
    requires NODESIZE <= |y| && U16(y, 6) <= MAXKEYSIZE && NODESIZE + U16(y, 6) <= |y|
    ensures Decode(y, false).Ok() && Decode(y, false).Head() == y[..NODESIZE]
  {
    var a, b, c, k := U16(y, 0), U16(y, 2), U16(y, 4), U16(y, 6);
    Enc16Inverse(y, 0);
    Enc16Inverse(y, 2);
    Enc16Inverse(y, 4);
    Enc16Inverse(y, 6);
    Digits(a, b, c);
    var n := Decode(y, false);
    hide U16, Enc16;
    assert n.Head() == Header(a, b, c, k);
    assert Header(a, b, c, k) == Enc16(a) + Enc16(b) + Enc16(c) + Enc16(k);
  }

  lemma Digits(a: int, b: int, c: int)
    requires 0 <= a < 0x1_0000 && 0 <= b < 0x1_0000 && 0 <= c < 0x1_0000
    ensures var p := a + 0x1_0000 * b + 0x1_0000_0000 * c;
            0 <= p < 0x1_0000_0000_0000 && p % 0x1_0000 == a && p / 0x1_0000 % 0x1_0000 == b &&
              p / 0x1_0000 / 0x1_0000 == c
  {
    LastDigit(b + 0x1_0000 * c, a);
    LastDigit(c, b);
  }

  lemma LastDigit(q: int, r: int)
    requires 0 <= r < 0x1_0000
    ensures (r + 0x1_0000 * q) % 0x1_0000 == r && (r + 0x1_0000 * q) / 0x1_0000 == q
  {
  }

  /** The bytes of a re-keyed branch node hold the node. */
  lemma RekeyedHolds(x: Bytes, m: Node, y: Bytes, key: Bytes)
    requires Holds(x, m) && m.Branch? && Rekeyed(x, y, key) && |key| <= MAXKEYSIZE
    ensures Holds(y, Branch(key, m.pgno))
  {
    DecodeEncode(m, x);
    var n := Decode(y, false);
    assert |n.key| == U16(y, 6) == |key|;
    HeadInverse(y);
    assert n.Encode() == y[..NODESIZE] + y[NODESIZE..NODESIZE + |key|] == y[..NODESIZE + |key|];
  }

  /** Give the first node of a branch page another key. */
  method LeadKey(p: Page, key: Bytes, ghost view: seq<Node>) returns (rc: int)
    requires p.Valid() && !p.leaf && Shows(p.Nodes(), view) && view != [] && view[0].Branch? && |key| <= MAXKEYSIZE
    modifies p, p.buf, p.ptrs
    ensures p.Valid()
    ensures rc == MDB_SUCCESS <==>
            Sum(Sizes(view)) - ItemSize(view[0]) + ItemSize(Branch(key,
            view[0].pgno)) <= p.buf.Length - PAGEHDRSZ
    ensures rc == MDB_SUCCESS ==> Shows(p.Nodes(), view[0 := Branch(key, view[0].pgno)])
  {
    hide SlottedPage.Tiled, Sizes, Sum, Holds, Rekeyed, Shows, ItemSize, Even, NodesOf, BranchNode;
    PageRoom(p, view);
    ghost var nodes, x, m := p.Nodes(), [], Branch(key, view[0].pgno);
    LeadFacts(nodes, view, m);
    rc, x := p.UpdateKey(0, key);
    if rc == MDB_SUCCESS {
      RekeyedHolds(nodes[0], view[0], x, key);
      ShowsLead(nodes, view, x, m);
    }
  }

  lemma LeadFacts(nodes: seq<Bytes>, view: seq<Node>, m: Node)
    requires Shows(nodes, view) && view != [] && m.Branch?
    ensures nodes != [] && Holds(nodes[0], view[0]) && |nodes[0]| + 2 == ItemSize(view[0])
    ensures ItemSize(m) == NODESIZE + Even(|m.key|) + 2
  {
    HoldsSize(nodes[0], view[0]);
  }

  lemma ShowsLead(nodes: seq<Bytes>, view: seq<Node>, x: Bytes, m: Node)
    requires Shows(nodes, view) && view != [] && Holds(x, m)
    ensures Shows(nodes[0 := x], view[0 := m])
  {
  }

  // ---- moving one node ----

  lemma HeadSize(view: seq<Node>)
    requires view != []
    ensures Sum(Sizes(view)) == ItemSize(view[0]) + Sum(Sizes(view[1..]))
    ensures forall m :: Sum(Sizes(view[0 := m])) == ItemSize(m) + Sum(Sizes(view[1..]))
  {
    SumHead(Sizes(view));
    assert Sizes(view)[1..] == Sizes(view[1..]);
    forall m ensures Sum(Sizes(view[0 := m])) == ItemSize(m) + Sum(Sizes(view[1..])) {
      SumHead(Sizes(view[0 := m]));
      assert Sizes(view[0 := m])[1..] == Sizes(view[1..]);
    }
  }

  lemma Prepended(nodes: seq<Bytes>, view: seq<Node>, m: Node, x: Bytes, nodes': seq<Bytes>)
    requires Shows(nodes, view) && Inserted(nodes, 0, x, nodes') && Holds(x, m)
    ensures Shows(nodes', [m] + view)
  {
  }

  lemma Removed1(nodes: seq<Bytes>, view: seq<Node>, i: int)
    requires Shows(nodes, view) && 0 <= i < |view|
    ensures Shows(nodes[..i] + nodes[i + 1..], view[..i] + view[i + 1..])
  {
  }

  /** Before a node goes in front of it, the node that leads a branch page gets its key back. */
  method RestoreLead(dst: Page, low: Bytes, ghost dv: seq<Node>)
    requires dst.Valid() && |low| <= MAXKEYSIZE && Shows(dst.Nodes(), dv) && Plain(dv, dst.leaf, dst.nodemax)
    requires (!dst.leaf ==> dv != [])
    requires Sum(Sizes(RestoredView(dv, low))) <= dst.buf.Length - PAGEHDRSZ
    modifies dst, dst.buf, dst.ptrs
    ensures dst.Valid() && Shows(dst.Nodes(), RestoredView(dv, low))
  {
    hide SlottedPage.Tiled, Shows, Sizes, Sum, ItemSize, RestoredView, Plain;
    if !dst.leaf {
      RestoredLead(dv, low, dst.nodemax);
      var rc := LeadKey(dst, low, dv);
    } else {
      RestoredLeaf(dv, low, dst.nodemax);
    }
  }

  /** The node that now leads a branch page loses its key. */
  method DropLead(dst: Page, ghost view: seq<Node>)
    requires dst.Valid() && Shows(dst.Nodes(), view) && view != [] && view[0].Leaf? == dst.leaf
    modifies dst, dst.buf, dst.ptrs
    ensures dst.Valid() && Shows(dst.Nodes(), view[0 := Lead(view[0])])
  {
    hide SlottedPage.Tiled, Shows, Sizes, Sum, ItemSize, NodesOf;
    SmallLead(view[0]);
    if !dst.leaf {
      PageRoom(dst, view);
      DropFits(dst, view);
      var rc := LeadKey(dst, [], view);
    } else {
      assert view[0 := view[0]] == view;
    }
  }

  lemma DropFits(dst: Page, view: seq<Node>)
    requires dst.Valid()
    ensures dst.lower <= dst.upper
  {
  }

  /** mdb_node_move from the left neighbour src. On branch pages the node that led dst first
      gets its key back; the moved node then loses its own to the parent. */
  method MoveFromLeft(src: Page, dst: Page, low: Bytes, ghost sv: seq<Node>, ghost dv: seq<Node>)
    returns (rc: int, sep: Bytes)
    requires src.Valid() && dst.Valid() && src != dst && src.buf != dst.buf && src.ptrs != dst.ptrs
    requires src.leaf == dst.leaf && src.nodemax == dst.nodemax && |low| <= MAXKEYSIZE
    requires Shows(src.Nodes(), sv) && Plain(sv, src.leaf, src.nodemax) && sv != [] && (|sv| == 1 ==> src.leaf)
    requires Shows(dst.Nodes(), dv) && Plain(dv, dst.leaf, dst.nodemax) && (!dst.leaf ==> dv != [])
    requires ItemSize(sv[|sv| - 1]) + Sum(Sizes(RestoredView(dv, low))) <= dst.buf.Length - PAGEHDRSZ
    modifies src, src.buf, src.ptrs, dst, dst.buf, dst.ptrs
    ensures rc == MDB_SUCCESS && src.Valid() && dst.Valid() && sep == sv[|sv| - 1].key
    ensures Shows(src.Nodes(), sv[..|sv| - 1])
    ensures Shows(dst.Nodes(), [Lead(sv[|sv| - 1])] + RestoredView(dv, low))
  {
    hide SlottedPage.Tiled, Shows, Sizes, Sum, Holds, Node.Ok, Stored, StoredSize, ItemSize, Inserted, RestoredView,
      Plain, NodesOf;
    PageRoom(src, sv);
    var n := src.NumKeys() - 1;
    var m := ReadRestored(src, n, low, sv);
    sep := m.key;
    assert m == sv[n];
    SmallLead(m);
    ghost var dv' := RestoredView(dv, low);
    RestoreLead(dst, low, dv);
    rc := PutFront(dst, m, dv');
    Take(src, n, sv);
    DropLead(dst, [m] + dv');
    FrontLead(sv, n, m, dv');
  }

  lemma FrontLead(sv: seq<Node>, n: int, m: Node, view: seq<Node>)
    requires n == |sv| - 1 >= 0
    ensures ([m] + view)[0 := Lead(m)] == [Lead(m)] + view && ([m] + view)[0] == m
    ensures sv[..n] + sv[n + 1..] == sv[..n]
  {
  }

  /** Add a node in front of all others; there is room for it. */
  method PutFront(dst: Page, m: Node, ghost view: seq<Node>) returns (rc: int)
    requires dst.Valid() && Shows(dst.Nodes(), view) && m.Ok() && m.Leaf? == dst.leaf && Stored(m, dst.nodemax, []) == m
    requires Even(StoredSize(m, dst.nodemax)) + 2 == ItemSize(m)
    requires ItemSize(m) + Sum(Sizes(view)) <= dst.buf.Length - PAGEHDRSZ
    modifies dst, dst.buf, dst.ptrs
    ensures rc == MDB_SUCCESS && dst.Valid() && Shows(dst.Nodes(), [m] + view)
  {
    hide SlottedPage.Tiled, Shows, Sizes, Sum, Holds, Node.Ok, Stored, StoredSize, ItemSize, Inserted, NodesOf;
    PageRoom(dst, view);
    ghost var nodes, x := dst.Nodes(), [];
    rc, x := dst.Add(0, m, []);
    Prepended(nodes, view, m, x, dst.Nodes());
  }

  /** Delete one node. */
  method Take(src: Page, n: int, ghost view: seq<Node>)
    requires src.Valid() && Shows(src.Nodes(), view) && 0 <= n < |view|
    modifies src, src.buf, src.ptrs
    ensures src.Valid() && Shows(src.Nodes(), view[..n] + view[n + 1..])
  {
    hide SlottedPage.Tiled, Shows, NodesOf;
    PageRoom(src, view);
    ghost var nodes := src.Nodes();
    src.Del(n);
    Removed1(nodes, view, n);
  }

  lemma RestoredLead(dv: seq<Node>, low: Bytes, nodemax: int)
    requires Plain(dv, false, nodemax) && dv != []
    ensures dv[0].Branch? && RestoredView(dv, low) == dv[0 := Branch(low, dv[0].pgno)]
    ensures Sum(Sizes(RestoredView(dv, low))) == Sum(Sizes(dv)) - ItemSize(dv[0]) + ItemSize(Branch(low, dv[0].pgno))
  {
    HeadSize(dv);
    assert PlainNode(dv[0], false, nodemax);
    assert RestoredView(dv, low) == dv[0 := Branch(low, dv[0].pgno)];
  }

  lemma RestoredLeaf(dv: seq<Node>, low: Bytes, nodemax: int)
    requires Plain(dv, true, nodemax)
    ensures RestoredView(dv, low) == dv
  {
    forall i | 0 <= i < |dv| ensures RestoredView(dv, low)[i] == dv[i] {
      assert PlainNode(dv[i], true, nodemax);
    }
  }

  lemma SmallLead(m: Node)
    ensures MIN_ITEM <= ItemSize(m)
    ensures m.Branch? ==> ItemSize(Branch([], m.pgno)) <= ItemSize(m) && Lead(m) == Branch([], m.pgno)
    ensures m.Leaf? ==> Lead(m) == m
  {
  }

  /** mdb_node_move from the right neighbour src: its first node, on a branch page with the
      lowest key below it, goes to the end of dst. */
  method MoveFromRight(src: Page, dst: Page, low: Bytes, ghost sv: seq<Node>, ghost dv: seq<Node>)
    returns (rc: int, sep: Bytes)
    requires src.Valid() && dst.Valid() && src != dst && src.buf != dst.buf && src.ptrs != dst.ptrs
    requires src.leaf == dst.leaf && src.nodemax == dst.nodemax && |low| <= MAXKEYSIZE
    requires Shows(src.Nodes(), sv) && Plain(sv, src.leaf, src.nodemax) && 2 <= |sv| && Shows(dst.Nodes(), dv)
    requires ItemSize(Restored(sv[0], true, low)) + Sum(Sizes(dv)) <= dst.buf.Length - PAGEHDRSZ
    modifies src, src.buf, src.ptrs, dst, dst.buf, dst.ptrs
    ensures rc == MDB_SUCCESS && src.Valid() && dst.Valid() && sep == sv[1].key
    ensures Shows(src.Nodes(), [Lead(sv[1])] + sv[2..])
    ensures Shows(dst.Nodes(), dv + [Restored(sv[0], true, low)])
  {
    hide SlottedPage.Tiled, Shows, Sizes, Sum, Holds, Node.Ok, Stored, StoredSize, ItemSize, Inserted, Plain, NodesOf,
      Restored;
    var m := ReadRestored(src, 0, low, sv);
    rc := PutBack(dst, m, dv);
    Take(src, 0, sv);
    RestKind(sv, src.leaf, src.nodemax);
    var first := ReadFirst(src, sv[1..]);
    sep := first.key;
    DropLead(src, sv[1..]);
  }

  lemma RestKind(sv: seq<Node>, leaf: bool, nodemax: int)
    requires Plain(sv, leaf, nodemax) && 2 <= |sv|
    ensures sv[..0] + sv[0 + 1..] == sv[1..] && sv[1..][0] == sv[1] && sv[1].Leaf? == leaf
    ensures sv[1..][0 := Lead(sv[1])] == [Lead(sv[1])] + sv[2..]
  {
    assert PlainNode(sv[1], leaf, nodemax);
  }

  method ReadFirst(src: Page, ghost view: seq<Node>) returns (n: Node)
    requires src.Valid() && Shows(src.Nodes(), view) && view != [] && view[0].Leaf? == src.leaf
    ensures n == view[0]
  {
    hide SlottedPage.Tiled, Holds;
    PageRoom(src, view);
    n := src.Read(0, view[0]);
  }

  /** Add a node behind all others; there is room for it. */
  method PutBack(dst: Page, m: Node, ghost view: seq<Node>) returns (rc: int)
    requires dst.Valid() && Shows(dst.Nodes(), view) && m.Ok() && m.Leaf? == dst.leaf && Stored(m, dst.nodemax, []) == m
    requires Even(StoredSize(m, dst.nodemax)) + 2 == ItemSize(m)
    requires ItemSize(m) + Sum(Sizes(view)) <= dst.buf.Length - PAGEHDRSZ
    modifies dst, dst.buf, dst.ptrs
    ensures rc == MDB_SUCCESS && dst.Valid() && Shows(dst.Nodes(), view + [m])
  {
    hide SlottedPage.Tiled, Shows, Sizes, Sum, Holds, Node.Ok, Stored, StoredSize, ItemSize, Inserted, NodesOf;
    PageRoom(dst, view);
    ghost var nodes, x := dst.Nodes(), [];
    rc, x := dst.Add(dst.NumKeys(), m, []);
    Appended(nodes, view, m, x, dst.Nodes());
  }

  // ---- the pages of a tree ----

  function Keys(view: seq<Node>): (r: seq<Bytes>)
    ensures |r| == |view| && forall i :: 0 <= i < |r| ==> r[i] == view[i].key
  {
    seq(|view|, i requires 0 <= i < |view| => view[i].key)
  }

  /** The bytes a branch page uses are those its separators need: what mdb_rebalance found to
      fit is what these methods need. */
  lemma BranchUse(view: seq<Node>, kids: seq<BTree.Tree>)
    requires forall i :: 0 <= i < |view| ==> view[i].Branch?
    ensures Sum(Sizes(view)) == Rebalance.Used(BTree.BranchPage(Keys(view), kids))
  {
    assert Sizes(view) == Rebalance.SepSizes(Keys(view));
  }
}
