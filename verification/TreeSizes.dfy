/** How much the pages of a tree hold: moves and merges leave both pages within their size. */
module TreeSizes {
  import opened ByteOrder
  import opened SlottedPage
  import opened PageNodes
  import opened BTree
  import opened PageSplit
  import opened SplitPoint
  import opened Rebalance

  /** Every page of the tree is within its size, and every key. */
  ghost predicate AllSized(t: Tree, pmax: int)
    decreases t
  {
    && Sized(t, pmax)
    && (t.LeafPage? ==> forall i :: 0 <= i < |t.nodes| ==> |t.nodes[i].key| <= MAXKEYSIZE)
    && (t.BranchPage? ==> KidsSized(t, pmax))
  }

  ghost predicate KidsSized(t: Tree, pmax: int)
    requires t.BranchPage?
    decreases t, 0
  {
    forall i :: 0 <= i < |t.kids| ==> AllSized(t.kids[i], pmax)
  }

  ghost predicate PairSized(p: Pair, pmax: int) {
    match p
    case Two(l, sep, r) => AllSized(l, pmax) && AllSized(r, pmax) && |sep| <= MAXKEYSIZE
    case One(page) => AllSized(page, pmax)
  }

  lemma {:induction false} LowSized(t: Tree, pmax: int)
    requires AllSized(t, pmax)
    ensures |Low(t)| <= MAXKEYSIZE
    decreases t
  {
    if t.BranchPage? && t.kids != [] { LowSized(t.kids[0], pmax); }
  }

  // ---- sums ----

  lemma SizesPlus(a: seq<Node>, b: seq<Node>)
    ensures Sum(Sizes(a + b)) == Sum(Sizes(a)) + Sum(Sizes(b))
  {
    SumConcat(Sizes(a), Sizes(b));
    assert Sizes(a + b) == Sizes(a) + Sizes(b);
  }

  lemma SepsPlus(a: seq<Bytes>, b: seq<Bytes>)
    ensures Sum(SepSizes(a + b)) == Sum(SepSizes(a)) + Sum(SepSizes(b))
  {
    SumConcat(SepSizes(a), SepSizes(b));
    assert SepSizes(a + b) == SepSizes(a) + SepSizes(b);
  }

  lemma SepOne(s: Bytes)
    ensures Sum(SepSizes([s])) == SepSize(s) >= MIN_ITEM
  {
    assert SepSizes([s])[..0] == [];
  }

  lemma SepsPositive(seps: seq<Bytes>)
    ensures 0 <= Sum(SepSizes(seps))
  {
    SumAtLeast(SepSizes(seps), 0);
  }

  lemma NodesPositive(nodes: seq<Node>)
    ensures 0 <= Sum(Sizes(nodes))
  {
    SumAtLeast(Sizes(nodes), 0);
  }

  lemma NodeOne(n: Node)
    ensures Sum(Sizes([n])) == ItemSize(n) >= 0
  {
    assert Sizes([n])[..0] == [];
  }

  /** The separator between two parts of a branch page, and the one that leads the right part,
      make the difference. */
  lemma CutUsed(t: Tree, j: int)
    requires t.BranchPage? && |t.seps| == |t.kids| && 0 < j < |t.kids|
    ensures Used(CutLeft(t, j)) + Used(CutRight(t, j)) == Used(t) - SepSize(t.seps[j]) + SepSize([])
    ensures 0 <= Used(CutLeft(t, j)) && SepSize([]) <= Used(CutRight(t, j))
    ensures Used(CutLeft(t, j)) == Sum(SepSizes(t.seps)[..j])
    ensures Used(CutRight(t, j)) == Sum(SepSizes(t.seps)[j..]) - (SepSizes(t.seps)[j] - MIN_ITEM)
  {
    hide Sum, SepSize;
    var a, s, b := t.seps[..j], t.seps[j], t.seps[j + 1..];
    SepOne(s);
    SepOne([]);
    assert SepSize([]) == MIN_ITEM by { EmptySep(); }
    assert t.seps == a + ([s] + b);
    SepsPlus(a, [s] + b);
    SepsPlus([s], b);
    SepsPlus([[]], b);
    SepsPositive(a);
    SepsPositive(b);
    assert SepSizes(t.seps)[..j] == SepSizes(a);
    assert [s] + b == t.seps[j..] && SepSizes(t.seps)[j..] == SepSizes(t.seps[j..]);
  }

  lemma EmptySep()
    ensures SepSize([]) == MIN_ITEM
  {
  }

  lemma JoinUsed(l: Tree, s: Bytes, r: Tree)
    requires l.BranchPage? && r.BranchPage? && 0 < |r.seps| && r.seps[0] == []
    ensures Used(Join(l, s, r)) == Used(l) + SepSize(s) + Used(r) - SepSize([])
  {
    hide Sum, SepSize;
    var b := r.seps[1..];
    SepOne(s);
    SepOne([]);
    assert r.seps == [[]] + b && l.seps + [s] + b == l.seps + ([s] + b);
    SepsPlus(l.seps, [s] + b);
    SepsPlus([s], b);
    SepsPlus([[]], b);
  }

  lemma JoinSized(l: Tree, s: Bytes, r: Tree, pmax: int)
    requires l.BranchPage? && r.BranchPage? && 0 < |r.seps| && 0 < |l.seps|
    requires AllSized(l, pmax) && AllSized(r, pmax) && |s| <= MAXKEYSIZE
    requires Used(l) + SepSize(s) + Used(r) - SepSize([]) <= pmax
    ensures AllSized(Join(l, s, r), pmax)
  {
    JoinUsed(l, s, r);
    SepsPositive(Join(l, s, r).seps);
    hide Used, SepSize, SepSizes;
  }

  lemma CutSized(t: Tree, j: int, pmax: int)
    requires t.BranchPage? && |t.seps| == |t.kids| && 0 < j < |t.kids| && KidsSized(t, pmax) && t.seps[0] == []
    requires forall i :: 0 <= i < |t.seps| ==> |t.seps[i]| <= MAXKEYSIZE
    ensures Used(CutLeft(t, j)) <= pmax ==> AllSized(CutLeft(t, j), pmax)
    ensures Used(CutRight(t, j)) <= pmax ==> AllSized(CutRight(t, j), pmax)
  {
    CutUsed(t, j);
    hide Used, SepSize, SepSizes;
    EmptySep();
  }

  // ---- moves and merges ----

  lemma LeafMoved(l: Tree, r: Tree, fromLeft: bool, pair: Pair, pmax: int)
    requires l.LeafPage? && r.LeafPage? && AllSized(l, pmax) && AllSized(r, pmax)
    requires pair.Two? ==> 1 < NumKeys(if fromLeft then l else r)
    requires pair == (if pair.One? then Merge(l, r) else if fromLeft then FromLeft(l, r) else FromRight(l, r))
    requires Peak(l, r, pair, fromLeft) <= pmax
    ensures PairSized(pair, pmax)
  {
    hide Sum, ItemSize;
    if pair.One? {
      SizesPlus(l.nodes, r.nodes);
    } else if fromLeft {
      MovedRight(l, r, pmax);
    } else {
      MovedLeft(l, r, pmax);
    }
  }

  lemma MovedRight(l: Tree, r: Tree, pmax: int)
    requires l.LeafPage? && r.LeafPage? && AllSized(l, pmax) && AllSized(r, pmax) && 1 < NumKeys(l)
    requires Peak(l, r, FromLeft(l, r), true) <= pmax
    ensures PairSized(FromLeft(l, r), pmax)
  {
    hide Sum, ItemSize;
    var n := |l.nodes| - 1;
    var m := l.nodes[n];
    NodeOne(m);
    SizesPlus([m], r.nodes);
    SizesPlus(l.nodes[..n], [m]);
    NodesPositive(l.nodes[..n]);
    assert l.nodes == l.nodes[..n] + [m];
  }

  lemma MovedLeft(l: Tree, r: Tree, pmax: int)
    requires l.LeafPage? && r.LeafPage? && AllSized(l, pmax) && AllSized(r, pmax) && 1 < NumKeys(r)
    requires Peak(l, r, FromRight(l, r), false) <= pmax
    ensures PairSized(FromRight(l, r), pmax)
  {
    hide Sum, ItemSize;
    var m := r.nodes[0];
    NodeOne(m);
    SizesPlus(l.nodes, [m]);
    SizesPlus([m], r.nodes[1..]);
    NodesPositive(r.nodes[1..]);
    assert r.nodes == [m] + r.nodes[1..];
  }

  lemma BranchFromLeftSized(l: Tree, r: Tree, pmax: int)
    requires l.BranchPage? && r.BranchPage? && r.kids != [] && AllSized(l, pmax) && AllSized(r, pmax) && 1 < |l.kids|
    requires |Low(r)| <= MAXKEYSIZE && Peak(l, r, FromLeft(l, r), true) <= pmax
    ensures PairSized(FromLeft(l, r), pmax)
  {
    hide SepSize, Low, Sum;
    EmptySep();
    var n := |l.kids| - 1;
    SepOne(l.seps[n]);
    SepOne([]);
    assert CutRight(l, n).seps == [[]];
    assert Used(CutRight(l, n)) == SepSize([]);
    CutUsed(l, n);
    hide Used;
    CutSized(l, n, pmax);
    JoinSized(CutRight(l, n), Low(r), r, pmax);
  }

  lemma BranchFromRightSized(l: Tree, r: Tree, pmax: int)
    requires l.BranchPage? && r.BranchPage? && l.kids != [] && AllSized(l, pmax) && AllSized(r, pmax) && 1 < |r.kids|
    requires |Low(r)| <= MAXKEYSIZE && Peak(l, r, FromRight(l, r), false) <= pmax
    ensures PairSized(FromRight(l, r), pmax)
  {
    hide SepSize, Low, Sum;
    EmptySep();
    SepOne(r.seps[0]);
    SepOne(r.seps[1]);
    assert CutLeft(r, 1).seps == [r.seps[0]];
    assert Used(CutLeft(r, 1)) == SepSize([]);
    CutUsed(r, 1);
    hide Used;
    CutSized(r, 1, pmax);
    JoinSized(l, Low(r), CutLeft(r, 1), pmax);
  }

  lemma BranchMoved(l: Tree, r: Tree, fromLeft: bool, pair: Pair, pmax: int)
    requires l.BranchPage? && r.BranchPage? && l.kids != [] && r.kids != [] && AllSized(l, pmax) && AllSized(r, pmax)
    requires pair.Two? ==> 1 < NumKeys(if fromLeft then l else r)
    requires pair == (if pair.One? then Merge(l, r) else if fromLeft then FromLeft(l, r) else FromRight(l, r))
    requires Peak(l, r, pair, fromLeft) <= pmax
    ensures PairSized(pair, pmax)
  {
    LowSized(r, pmax);
    hide SepSize, Low, Used, FromLeft, FromRight;
    if pair.One? {
      JoinSized(l, Low(r), r, pmax);
    } else if fromLeft {
      BranchFromLeftSized(l, r, pmax);
    } else {
      BranchFromRightSized(l, r, pmax);
    }
  }

  /** Whatever mdb_rebalance chooses, both pages stay within their size. */
  lemma MendSized(l: Tree, r: Tree, fromLeft: bool, pmax: int)
    requires AllSized(l, pmax) && AllSized(r, pmax) && l.LeafPage? == r.LeafPage? && MIN_PSIZE - PAGEHDRSZ <= pmax
    requires 0 < NumKeys(if fromLeft then l else r) && (l.BranchPage? ==> l.kids != [] && r.kids != [])
    requires Poor(if fromLeft then r else l, pmax)
    ensures PairSized(Mend(l, r, fromLeft, pmax), pmax)
  {
    hide Used, Fill, Sum, Low, Poor;
    LowSized(r, pmax);
    MendFits(l, r, fromLeft, pmax);
    var pair := Mend(l, r, fromLeft, pmax);
    hide Peak, PairSized;
    if l.LeafPage? {
      LeafMoved(l, r, fromLeft, pair, pmax);
    } else {
      BranchMoved(l, r, fromLeft, pair, pmax);
    }
  }

  // ---- the parent ----

  /** One separator for another. */
  lemma RekeyUsed(t: Tree, k: int, sep: Bytes)
    requires t.BranchPage? && 0 <= k < |t.seps|
    ensures Sum(SepSizes(t.seps[k := sep])) == Used(t) - SepSize(t.seps[k]) + SepSize(sep)
  {
    hide Sum, SepSize;
    var s, s' := SepSizes(t.seps), SepSizes(t.seps[k := sep]);
    SumAround(s, k);
    SumAround(s', k);
    assert s'[..k] == s[..k] && s'[k + 1..] == s[k + 1..];
  }

  /** After a move the parent is within its size exactly when it has room for what the new
      separator is longer. */
  lemma RekeyFits(t: Tree, i: int, l: Tree, sep: Bytes, r: Tree, pmax: int)
    requires Sized(t, pmax) && t.BranchPage? && 0 <= i && i + 1 < |t.kids| && |sep| <= MAXKEYSIZE
    ensures Used(Replace(t, i, Two(l, sep, r))) == Used(t) - SepSize(t.seps[i + 1]) + SepSize(sep)
    ensures Sized(Replace(t, i, Two(l, sep, r)), pmax) <==> SepSize(sep) - SepSize(t.seps[i + 1]) <= pmax - Used(t)
  {
    RekeyUsed(t, i + 1, sep);
    SepsPositive(t.seps[i + 1 := sep]);
    hide Used, SepSize;
  }

  /** After a merge it always is. */
  lemma UnlinkFits(t: Tree, i: int, page: Tree, pmax: int)
    requires AllSized(t, pmax) && t.BranchPage? && 0 <= i && i + 1 < |t.kids| && AllSized(page, pmax)
    ensures AllSized(Replace(t, i, One(page)), pmax)
  {
    hide Sum, SepSize;
    var t' := Replace(t, i, One(page));
    var a, s, b := t.seps[..i + 1], t.seps[i + 1], t.seps[i + 2..];
    SepOne(s);
    assert t.seps == a + ([s] + b);
    SepsPlus(a, [s] + b);
    SepsPlus([s], b);
    SepsPlus(a, b);
    SepsPositive(a + b);
    hide Used;
    forall k | 0 <= k < |t'.kids| ensures AllSized(t'.kids[k], pmax) {}
  }
}
