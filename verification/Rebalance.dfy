/** mdb_rebalance: after a deletion a page that holds too little takes a node from a
    neighbour, or merges with it. */
module Rebalance {
  import opened ByteOrder
  import opened SlottedPage
  import opened PageNodes
  import opened BTree
  import opened PageSplit
  import opened SplitPoint

  // ---- cutting and joining branch pages ----

  /** The branch page of the first j children, and that of the others. */
  function CutLeft(t: Tree, j: int): Tree
    requires t.BranchPage? && |t.seps| == |t.kids| && 0 <= j <= |t.kids|
  {
    BranchPage(t.seps[..j], t.kids[..j])
  }

  function CutRight(t: Tree, j: int): Tree
    requires t.BranchPage? && |t.seps| == |t.kids| && 0 <= j < |t.kids|
  {
    BranchPage([[]] + t.seps[j + 1..], t.kids[j..])
  }

  /** One branch page with the children of two; s separates them. */
  function Join(l: Tree, s: Bytes, r: Tree): Tree
    requires l.BranchPage? && r.BranchPage? && 0 < |r.seps|
  {
    BranchPage(l.seps + [s] + r.seps[1..], l.kids + r.kids)
  }

  lemma CutOk(t: Tree, j: int)
    requires t.BranchPage? && SepsOk(t) && 0 < j < |t.kids|
    ensures SepsOk(CutLeft(t, j)) && SepsOk(CutRight(t, j))
    ensures Below(t.kids) == Below(CutLeft(t, j).kids) + Below(CutRight(t, j).kids)
  {
    hide Between, Below;
    BelowPlus(t.kids[..j], t.kids[j..]);
    assert t.kids == t.kids[..j] + t.kids[j..];
    var r := CutRight(t, j);
    forall i, k | 0 <= i && k == i + 1 && k < |r.kids| ensures Between(r.kids[i], r.seps[k], r.kids[k]) {
      var i', k' := i + j, k + j;
      assert Between(t.kids[i'], t.seps[k'], t.kids[k']);
    }
    forall i, k | 1 <= i && k == i + 1 && k < |r.seps| ensures Lt(r.seps[i], r.seps[k]) {
      var i', k' := i + j, k + j;
      assert Lt(t.seps[i'], t.seps[k']);
    }
    var l := CutLeft(t, j);
    forall i, k | 0 <= i && k == i + 1 && k < |l.kids| ensures Between(l.kids[i], l.seps[k], l.kids[k]) {
      assert Between(t.kids[i], t.seps[k], t.kids[k]);
    }
  }

  lemma JoinOk(l: Tree, s: Bytes, r: Tree)
    requires l.BranchPage? && r.BranchPage? && SepsOk(l) && SepsOk(r) && 0 < |l.kids| && 0 < |r.kids|
    requires Between(l.kids[|l.kids| - 1], s, r.kids[0])
    requires (1 < |l.kids| ==> Lt(l.seps[|l.seps| - 1], s)) && (1 < |r.kids| ==> Lt(s, r.seps[1]))
    ensures SepsOk(Join(l, s, r)) && Below(Join(l, s, r).kids) == Below(l.kids) + Below(r.kids)
  {
    hide Between, Below;
    BelowPlus(l.kids, r.kids);
    var t, n := Join(l, s, r), |l.kids|;
    forall i, k | 0 <= i && k == i + 1 && k < |t.kids| ensures Between(t.kids[i], t.seps[k], t.kids[k]) {
      if k < n {
        assert Between(l.kids[i], l.seps[k], l.kids[k]);
      } else if n < k {
        var i', k' := i - n, k - n;
        assert Between(r.kids[i'], r.seps[k'], r.kids[k']);
        assert t.seps[k] == r.seps[1..][k - n - 1] == r.seps[k'];
      }
    }
    forall i, k | 1 <= i && k == i + 1 && k < |t.seps| ensures Lt(t.seps[i], t.seps[k]) {
      if k < n {
        assert Lt(l.seps[i], l.seps[k]);
      } else if n < i {
        var i', k' := i - n, k - n;
        assert Lt(r.seps[i'], r.seps[k']);
        assert t.seps[k] == r.seps[1..][k - n - 1] && t.seps[i] == r.seps[1..][i - n - 1];
      } else if n == i {
        assert t.seps[k] == r.seps[1..][0];
      }
    }
  }

  // ---- order ----

  lemma SortedParts(a: seq<Node>, b: seq<Node>)
    requires Sorted(a + b)
    ensures Sorted(a) && Sorted(b) && forall i, j :: 0 <= i < |a| && 0 <= j < |b| ==> Lt(a[i].key, b[j].key)
  {
    var r := a + b;
    forall i, j | 0 <= i < |a| && 0 <= j < |b| ensures Lt(a[i].key, b[j].key) {
      assert Lt(r[i].key, r[|a| + j].key);
    }
    forall i, j | 0 <= i < j < |b| ensures Lt(b[i].key, b[j].key) {
      assert Lt(r[|a| + i].key, r[|a| + j].key);
    }
    forall i, j | 0 <= i < j < |a| ensures Lt(a[i].key, a[j].key) {
      assert Lt(r[i].key, r[j].key);
    }
  }

  /** A separator bounds everything on either side of it. */
  lemma SepSplits(t: Tree, d: nat, j: int)
    requires Weak(t, d) && d > 0 && 0 < j < |t.kids| && Sorted(Below(t.kids))
    ensures AllLt(Below(t.kids[..j]), t.seps[j]) && AllGe(Below(t.kids[j..]), t.seps[j])
  {
    var s, l, r := t.seps[j], t.kids[j - 1], t.kids[j];
    assert Between(l, s, r);
    LowFirst(l, d - 1);
    LowFirst(r, d - 1);
    assert t.kids[..j] == t.kids[..j - 1] + [l] && t.kids[j..] == [r] + t.kids[j + 1..] &&
      t.kids == t.kids[..j] + t.kids[j..];
    BelowPlus(t.kids[..j], t.kids[j..]);
    BelowPlus(t.kids[..j - 1], [l]);
    BelowPlus([r], t.kids[j + 1..]);
    BelowOne(l);
    BelowOne(r);
    hide Below;
    SortedParts(Below(t.kids[..j]), Below(t.kids[j..]));
    LtBefore(Below(t.kids[..j - 1]), InOrder(l), s);
    GeAfter(InOrder(r), Below(t.kids[j + 1..]), s);
  }

  lemma LtBefore(a: seq<Node>, b: seq<Node>, s: Bytes)
    requires Sorted(a + b) && b != [] && AllLt(b, s)
    ensures AllLt(a + b, s)
  {
    SortedParts(a, b);
    forall i | 0 <= i < |a| ensures Lt(a[i].key, s) {
      assert Lt(a[i].key, b[0].key) && Lt(b[0].key, s);
      Transitive(a[i].key, b[0].key, s);
    }
  }

  lemma GeAfter(a: seq<Node>, b: seq<Node>, s: Bytes)
    requires Sorted(a + b) && a != [] && AllGe(a, s)
    ensures AllGe(a + b, s)
  {
    SortedParts(a, b);
    forall i | 0 <= i < |b| ensures Le(s, b[i].key) {
      assert Lt(a[0].key, b[i].key) && Le(s, a[0].key);
      Transitive(s, a[0].key, b[i].key);
    }
  }

  /** The lowest key on the right separates two pages. */
  lemma LowSeparates(l: seq<Node>, r: seq<Node>)
    requires Sorted(l + r) && r != []
    ensures AllLt(l, r[0].key) && AllGe(r, r[0].key)
  {
    SortedParts(l, r);
    Equal(r[0].key, r[0].key);
    forall i | 0 <= i < |r| ensures Le(r[0].key, r[i].key) {
      if 0 < i { assert Lt(r[0].key, r[i].key); }
    }
  }

  // ---- moving a node, merging ----

  /** What two neighbours become: two pages again and the separator of the right one, or one. */
  datatype Pair = Two(l: Tree, sep: Bytes, r: Tree) | One(page: Tree)

  /** mdb_node_move from the left neighbour: its last node becomes the first one of r. On a
      branch page the node that led r gets its key back, the lowest key below it. */
  function FromLeft(l: Tree, r: Tree): (pair: Pair)
    requires l.LeafPage? == r.LeafPage? && 1 < NumKeys(l)
    requires l.BranchPage? ==> |l.seps| == |l.kids| && |r.seps| == |r.kids| && r.kids != []
    ensures pair.Two?
  {
    var n := NumKeys(l) - 1;
    if l.LeafPage? then Two(LeafPage(l.nodes[..n]), l.nodes[n].key, LeafPage([l.nodes[n]] + r.nodes))
    else Two(CutLeft(l, n), l.seps[n], Join(CutRight(l, n), Low(r), r))
  }

  /** mdb_node_move from the right neighbour: its first node becomes the last one of l. */
  function FromRight(l: Tree, r: Tree): (pair: Pair)
    requires l.LeafPage? == r.LeafPage? && 1 < NumKeys(r)
    requires l.BranchPage? ==> |l.seps| == |l.kids| && |r.seps| == |r.kids|
    ensures pair.Two?
  {
    if l.LeafPage? then Two(LeafPage(l.nodes + [r.nodes[0]]), r.nodes[1].key, LeafPage(r.nodes[1..]))
    else Two(Join(l, Low(r), CutLeft(r, 1)), r.seps[1], CutRight(r, 1))
  }

  /** mdb_page_merge: all nodes of r go to the end of l. */
  function Merge(l: Tree, r: Tree): (pair: Pair)
    requires l.LeafPage? == r.LeafPage? && (l.BranchPage? ==> r.seps != [])
    ensures pair.One?
  {
    One(if l.LeafPage? then LeafPage(l.nodes + r.nodes) else Join(l, Low(r), r))
  }

  /** Nothing was lost, and the pages are as a tree needs them. */
  ghost predicate PairOk(p: Pair, d: nat, all: seq<Node>) {
    match p
    case Two(l, sep, r) => Strong(l, d) && Strong(r, d) && Between(l, sep, r) && InOrder(l) + InOrder(r) == all
    case One(page) => Strong(page, d) && InOrder(page) == all
  }

  lemma LeafMoves(l: Tree, r: Tree)
    requires l.LeafPage? && r.LeafPage? && Sorted(l.nodes + r.nodes)
    ensures 1 < |l.nodes| ==> PairOk(FromLeft(l, r), 0, l.nodes + r.nodes)
    ensures 1 < |r.nodes| ==> PairOk(FromRight(l, r), 0, l.nodes + r.nodes)
    ensures 0 < |l.nodes + r.nodes| ==> PairOk(Merge(l, r), 0, l.nodes + r.nodes)
  {
    if 1 < |l.nodes| {
      var n := |l.nodes| - 1;
      assert l.nodes + r.nodes == l.nodes[..n] + ([l.nodes[n]] + r.nodes);
      LowSeparates(l.nodes[..n], [l.nodes[n]] + r.nodes);
    }
    if 1 < |r.nodes| {
      assert l.nodes + r.nodes == (l.nodes + [r.nodes[0]]) + r.nodes[1..];
      LowSeparates(l.nodes + [r.nodes[0]], r.nodes[1..]);
    }
  }

  /** The lowest key below a page follows everything to the left of the page. */
  lemma LowBetween(l: Tree, r: Tree, dl: nat, d: nat)
    requires dl == d && Weak(l, dl) && Weak(r, d) && d > 0 && Sorted(InOrder(l) + InOrder(r))
    ensures Between(l.kids[|l.kids| - 1], Low(r), r.kids[0])
    ensures 1 < |l.kids| ==> Lt(l.seps[|l.seps| - 1], Low(r))
    ensures 1 < |r.kids| ==> Lt(Low(r), r.seps[1])
  {
    var n := |l.kids| - 1;
    var a, b := l.kids[n], r.kids[0];
    LowFirst(a, d - 1);
    LowFirst(b, d - 1);
    InOrderBelow(l);
    InOrderBelow(r);
    assert l.kids == l.kids[..n] + [a] && r.kids == [b] + r.kids[1..];
    BelowPlus(l.kids[..n], [a]);
    BelowPlus([b], r.kids[1..]);
    BelowOne(a);
    BelowOne(b);
    hide Below, InOrder, Low;
    MiddleSorted(Below(l.kids[..n]), InOrder(a), InOrder(b), Below(r.kids[1..]));
    LowSeparates(InOrder(a), InOrder(b));
    if 0 < n {
      assert Between(l.kids[n - 1], l.seps[n], a);
      Transitive(l.seps[n], InOrder(a)[0].key, InOrder(b)[0].key);
    }
    if 1 < |r.kids| { assert Between(b, r.seps[1], r.kids[1]); }
  }

  lemma MiddleSorted(a: seq<Node>, b: seq<Node>, c: seq<Node>, e: seq<Node>)
    requires Sorted((a + b) + (c + e))
    ensures Sorted(b + c)
  {
    assert (a + b) + (c + e) == a + ((b + c) + e);
    SortedParts(a, (b + c) + e);
    SortedParts(b + c, e);
  }

  lemma BranchMerge(l: Tree, r: Tree, d: nat)
    requires d > 0 && Weak(l, d) && Weak(r, d) && Sorted(InOrder(l) + InOrder(r))
    ensures PairOk(Merge(l, r), d, InOrder(l) + InOrder(r))
  {
    LowBetween(l, r, d, d);
    JoinOk(l, Low(r), r);
    InOrderBelow(l);
    InOrderBelow(r);
    InOrderBelow(Join(l, Low(r), r));
  }

  lemma CutWeak(t: Tree, d: nat, j: int)
    requires d > 0 && Weak(t, d) && 0 < j < |t.kids|
    ensures Weak(CutLeft(t, j), d) && Weak(CutRight(t, j), d)
    ensures InOrder(t) == InOrder(CutLeft(t, j)) + InOrder(CutRight(t, j))
  {
    CutOk(t, j);
    InOrderBelow(t);
    InOrderBelow(CutLeft(t, j));
    InOrderBelow(CutRight(t, j));
  }

  lemma CutSplits(t: Tree, d: nat, j: int)
    requires d > 0 && Weak(t, d) && 0 < j < |t.kids| && Sorted(InOrder(t))
    ensures var l, r := CutLeft(t, j), CutRight(t, j);
            && Weak(l, d) && Weak(r, d) && InOrder(t) == InOrder(l) + InOrder(r)
            && AllLt(InOrder(l), t.seps[j]) && AllGe(InOrder(r), t.seps[j]) && InOrder(l) != [] && InOrder(r) != []
  {
    CutWeak(t, d, j);
    InOrderBelow(t);
    InOrderBelow(CutLeft(t, j));
    InOrderBelow(CutRight(t, j));
    SepSplits(t, d, j);
    KidNonEmpty(CutLeft(t, j), d);
    KidNonEmpty(CutRight(t, j), d);
  }

  lemma BranchFromLeft(l: Tree, r: Tree, d: nat)
    requires d > 0 && Weak(l, d) && Weak(r, d) && Sorted(InOrder(l) + InOrder(r)) && 2 < |l.kids|
    ensures PairOk(FromLeft(l, r), d, InOrder(l) + InOrder(r))
  {
    hide Sorted, InOrder, Low, Join;
    var n := |l.kids| - 1;
    var l', k := CutLeft(l, n), CutRight(l, n);
    SortedParts(InOrder(l), InOrder(r));
    CutSplits(l, d, n);
    assert InOrder(l) + InOrder(r) == InOrder(l') + (InOrder(k) + InOrder(r));
    SortedParts(InOrder(l'), InOrder(k) + InOrder(r));
    BranchJoin(k, r, d);
    GeAfter(InOrder(k), InOrder(r), l.seps[n]);
    assert Strong(l', d);
    hide Weak, AllLt, AllGe;
  }

  lemma BranchFromRight(l: Tree, r: Tree, d: nat)
    requires d > 0 && Weak(l, d) && Weak(r, d) && Sorted(InOrder(l) + InOrder(r)) && 2 < |r.kids|
    ensures PairOk(FromRight(l, r), d, InOrder(l) + InOrder(r))
  {
    hide Sorted, InOrder, Join;
    var k, r' := CutLeft(r, 1), CutRight(r, 1);
    SortedParts(InOrder(l), InOrder(r));
    CutSplits(r, d, 1);
    assert InOrder(l) + InOrder(r) == (InOrder(l) + InOrder(k)) + InOrder(r');
    SortedParts(InOrder(l) + InOrder(k), InOrder(r'));
    BranchJoin(l, k, d);
    assert Low(k) == Low(r);
    LtBefore(InOrder(l), InOrder(k), r.seps[1]);
    assert Strong(r', d);
    hide Weak, AllLt, AllGe;
  }

  lemma BranchJoin(l: Tree, r: Tree, d: nat)
    requires d > 0 && Weak(l, d) && Weak(r, d) && Sorted(InOrder(l) + InOrder(r))
    ensures Strong(Join(l, Low(r), r), d) && InOrder(Join(l, Low(r), r)) == InOrder(l) + InOrder(r)
  {
    BranchMerge(l, r, d);
  }

  lemma KidNonEmpty(t: Tree, d: nat)
    requires d > 0 && Weak(t, d)
    ensures InOrder(t) != []
  {
    InOrderBelow(t);
    LowFirst(t.kids[0], d - 1);
    assert Contents(t.kids)[0] == InOrder(t.kids[0]);
  }

  // ---- the parent ----

  /** The parent after its children i and i + 1 became p. */
  function Replace(t: Tree, i: int, p: Pair): (r: Tree)
    requires t.BranchPage? && |t.seps| == |t.kids| && 0 <= i && i + 1 < |t.kids|
    ensures r.BranchPage? && |r.kids| == |r.seps| == |t.kids| - if p.Two? then 0 else 1
  {
    match p
    case Two(l, sep, r) => BranchPage(t.seps[i + 1 := sep], t.kids[i := l][i + 1 := r])
    case One(page) => BranchPage(t.seps[..i + 1] + t.seps[i + 2..], t.kids[..i] + [page] + t.kids[i + 2..])
  }

  lemma ReplaceBelow(t: Tree, i: int, p: Pair)
    requires t.BranchPage? && |t.seps| == |t.kids| && 0 <= i && i + 1 < |t.kids|
    requires p.Two? ==> InOrder(p.l) + InOrder(p.r) == InOrder(t.kids[i]) + InOrder(t.kids[i + 1])
    requires p.One? ==> InOrder(p.page) == InOrder(t.kids[i]) + InOrder(t.kids[i + 1])
    ensures InOrder(Replace(t, i, p)) == InOrder(t)
  {
    hide InOrder, Below;
    var t' := Replace(t, i, p);
    InOrderBelow(t);
    InOrderBelow(t');
    var a, b, was := t.kids[..i], t.kids[i + 2..], [t.kids[i], t.kids[i + 1]];
    var now := if p.Two? then [p.l, p.r] else [p.page];
    ReplaceKids(t, i, p, a, b, was, now);
    BelowPlus(a, was + b);
    BelowPlus(was, b);
    BelowPlus(a, now + b);
    BelowPlus(now, b);
    BelowTwo(t.kids[i], t.kids[i + 1]);
    if p.Two? { BelowTwo(p.l, p.r); } else { BelowOne(p.page); }
  }

  lemma ReplaceKids(t: Tree, i: int, p: Pair, a: seq<Tree>, b: seq<Tree>, was: seq<Tree>, now: seq<Tree>)
    requires t.BranchPage? && |t.seps| == |t.kids| && 0 <= i && i + 1 < |t.kids|
    requires a == t.kids[..i] && b == t.kids[i + 2..] && was == [t.kids[i], t.kids[i + 1]]
    requires now == if p.Two? then [p.l, p.r] else [p.page]
    ensures t.kids == a + (was + b) && Replace(t, i, p).kids == a + (now + b)
  {
  }

  /** Bounds on two neighbours are bounds on whatever they become. */
  lemma BoundsMove(a: seq<Node>, b: seq<Node>, c: seq<Node>, e: seq<Node>, k: Bytes)
    requires a + b == c + e
    ensures AllLt(a, k) && AllLt(b, k) ==> AllLt(c, k) && AllLt(e, k)
    ensures AllGe(a, k) && AllGe(b, k) ==> AllGe(c, k) && AllGe(e, k)
  {
    var all := a + b;
    assert forall i :: 0 <= i < |c| ==> c[i] == all[i];
    assert forall i :: 0 <= i < |e| ==> e[i] == all[|c| + i];
    assert forall i :: 0 <= i < |all| ==> all[i] == if i < |a| then a[i] else b[i - |a|];
  }

  lemma GeDown(s: seq<Node>, k: Bytes, k': Bytes)
    requires AllGe(s, k') && Lt(k, k')
    ensures AllGe(s, k)
  {
    forall i | 0 <= i < |s| ensures Le(k, s[i].key) { Transitive(k, k', s[i].key); }
  }

  lemma LtUp(s: seq<Node>, k: Bytes, k': Bytes)
    requires AllLt(s, k) && Lt(k, k')
    ensures AllLt(s, k')
  {
    forall i | 0 <= i < |s| ensures Lt(s[i].key, k') { Transitive(s[i].key, k, k'); }
  }

  /** The separators around two neighbours bound both of them. */
  lemma PairBounds(t: Tree, i: int)
    requires t.BranchPage? && SepsOk(t) && 0 <= i && i + 1 < |t.kids|
    ensures 0 < i ==> AllGe(InOrder(t.kids[i]), t.seps[i]) && AllGe(InOrder(t.kids[i + 1]), t.seps[i])
    ensures i + 2 < |t.kids| ==>
            AllLt(InOrder(t.kids[i]), t.seps[i + 2]) &&
            AllLt(InOrder(t.kids[i + 1]), t.seps[i + 2])
  {
    assert Between(t.kids[i], t.seps[i + 1], t.kids[i + 1]);
    if 0 < i {
      assert Between(t.kids[i - 1], t.seps[i], t.kids[i]);
      assert Lt(t.seps[i], t.seps[i + 1]);
      GeDown(InOrder(t.kids[i + 1]), t.seps[i], t.seps[i + 1]);
    }
    if i + 2 < |t.kids| {
      assert Between(t.kids[i + 1], t.seps[i + 2], t.kids[i + 2]);
      assert Lt(t.seps[i + 1], t.seps[i + 2]);
      LtUp(InOrder(t.kids[i]), t.seps[i + 1], t.seps[i + 2]);
    }
  }

  lemma ReplaceTwoSeps(t: Tree, d: nat, i: int, l: Tree, sep: Bytes, r: Tree)
    requires t.BranchPage? && SepsOk(t) && 0 <= i && i + 1 < |t.kids|
    requires PairOk(Two(l, sep, r), d, InOrder(t.kids[i]) + InOrder(t.kids[i + 1]))
    ensures SepsOk(Replace(t, i, Two(l, sep, r)))
  {
    var t' := Replace(t, i, Two(l, sep, r));
    PairBounds(t, i);
    LowFirst(l, d);
    LowFirst(r, d);
    if 0 < i {
      BoundsMove(InOrder(t.kids[i]), InOrder(t.kids[i + 1]), InOrder(l), InOrder(r), t.seps[i]);
      Transitive(t.seps[i], InOrder(l)[0].key, sep);
    }
    if i + 2 < |t.kids| {
      BoundsMove(InOrder(t.kids[i]), InOrder(t.kids[i + 1]), InOrder(l), InOrder(r), t.seps[i + 2]);
      Transitive(sep, InOrder(r)[0].key, t.seps[i + 2]);
    }
    hide Strong, Weak, InOrder;
    forall j, k | 0 <= j && k == j + 1 && k < |t'.kids| ensures Between(t'.kids[j], t'.seps[k], t'.kids[k]) {
      assert Between(t.kids[j], t.seps[k], t.kids[k]);
    }
    forall j, k | 1 <= j && k == j + 1 && k < |t'.seps| ensures Lt(t'.seps[j], t'.seps[k]) {
      assert Lt(t.seps[j], t.seps[k]);
    }
  }

  lemma OnePlaces(t: Tree, i: int, page: Tree, k: int)
    requires t.BranchPage? && |t.seps| == |t.kids| && 0 <= i && i + 1 < |t.kids| && 0 <= k < |t.kids| - 1
    ensures var t', k' := Replace(t, i, One(page)), if k <= i then k else k + 1;
            t'.seps[k] == t.seps[k'] && t'.kids[k] == if k == i then page else t.kids[k']
  {
  }

  lemma OneBetween(t: Tree, d: nat, i: int, page: Tree, j: int, k: int)
    requires t.BranchPage? && SepsOk(t) && 0 <= i && i + 1 < |t.kids| && 0 <= j && k == j + 1 && k < |t.kids| - 1
    requires PairOk(One(page), d, InOrder(t.kids[i]) + InOrder(t.kids[i + 1]))
    ensures var t' := Replace(t, i, One(page)); Between(t'.kids[j], t'.seps[k], t'.kids[k])
  {
    PairBounds(t, i);
    var a, b := InOrder(t.kids[i]), InOrder(t.kids[i + 1]);
    hide Strong, Weak, InOrder, AllLt, AllGe;
    var j', k' := if j <= i then j else j + 1, if k <= i then k else k + 1;
    OnePlaces(t, i, page, j);
    OnePlaces(t, i, page, k);
    hide Replace;
    if j == i {
      BoundsMove(a, b, InOrder(page), [], t.seps[i + 2]);
      assert Between(t.kids[i + 1], t.seps[k'], t.kids[k']);
    } else if k == i {
      BoundsMove(a, b, InOrder(page), [], t.seps[i]);
      assert Between(t.kids[j], t.seps[k], t.kids[i]);
    } else {
      assert Between(t.kids[j'], t.seps[k'], t.kids[k']);
    }
  }

  lemma OneAscends(t: Tree, i: int, page: Tree, j: int, k: int)
    requires t.BranchPage? && SepsOk(t) && 0 <= i && i + 1 < |t.kids| && 1 <= j && k == j + 1 && k < |t.kids| - 1
    ensures var t' := Replace(t, i, One(page)); Lt(t'.seps[j], t'.seps[k])
  {
    hide Between, InOrder;
    OnePlaces(t, i, page, j);
    OnePlaces(t, i, page, k);
    hide Replace;
    var j', k' := if j <= i then j else j + 1, if k <= i then k else k + 1;
    var m := j' + 1;
    assert Lt(t.seps[j'], t.seps[m]);
    if k' == m + 1 {
      assert Lt(t.seps[m], t.seps[k']);
      Transitive(t.seps[j'], t.seps[m], t.seps[k']);
    }
  }

  lemma ReplaceOneSeps(t: Tree, d: nat, i: int, page: Tree)
    requires t.BranchPage? && SepsOk(t) && 0 <= i && i + 1 < |t.kids|
    requires PairOk(One(page), d, InOrder(t.kids[i]) + InOrder(t.kids[i + 1]))
    ensures SepsOk(Replace(t, i, One(page)))
  {
    var t' := Replace(t, i, One(page));
    hide PairOk, InOrder, Between, Lt;
    forall j, k | 0 <= j && k == j + 1 && k < |t'.kids| ensures Between(t'.kids[j], t'.seps[k], t'.kids[k]) {
      OneBetween(t, d, i, page, j, k);
    }
    forall j, k | 1 <= j && k == j + 1 && k < |t'.seps| ensures Lt(t'.seps[j], t'.seps[k]) {
      OneAscends(t, i, page, j, k);
    }
  }

  /** Whatever two neighbours become, the parent is a valid page with the same entries. */
  lemma ReplaceOk(t: Tree, d: nat, i: int, p: Pair)
    requires d > 0 && t.BranchPage? && SepsOk(t) && 0 <= i && i + 1 < |t.kids|
    requires forall k :: 0 <= k < |t.kids| && k != i && k != i + 1 ==> Strong(t.kids[k], d - 1)
    requires PairOk(p, d - 1, InOrder(t.kids[i]) + InOrder(t.kids[i + 1]))
    ensures Weak(Replace(t, i, p), d) && InOrder(Replace(t, i, p)) == InOrder(t)
  {
    ReplaceBelow(t, i, p);
    match p
    case Two(l, sep, r) => ReplaceTwoSeps(t, d - 1, i, l, sep, r);
    case One(page) => ReplaceOneSeps(t, d - 1, i, page);
  }

  // ---- when to move and when to merge ----

  /** FILL_THRESHOLD, in thousandths of a page. */
  const FILL_THRESHOLD := 250

  function SepSize(s: Bytes): int { Even(NODESIZE + |s|) + 2 }

  function SepSizes(seps: seq<Bytes>): (r: seq<int>)
    ensures |r| == |seps| && forall i :: 0 <= i < |r| ==> r[i] == SepSize(seps[i])
  {
    seq(|seps|, i requires 0 <= i < |seps| => SepSize(seps[i]))
  }

  /** The bytes in use on a page. */
  function Used(t: Tree): int {
    if t.LeafPage? then Sum(Sizes(t.nodes)) else Sum(SepSizes(t.seps))
  }

  /** PAGEFILL. */
  function Fill(t: Tree, pmax: int): int
    requires 0 < pmax
  {
    1000 * Used(t) / pmax
  }

  function Thresh(t: Tree): int { if t.BranchPage? then 1 else FILL_THRESHOLD }
  function MinKeys(t: Tree): int { if t.BranchPage? then 2 else 1 }

  /** A page that must be rebalanced, and a neighbour that can spare a node. */
  predicate Poor(t: Tree, pmax: int)
    requires 0 < pmax
  {
    Fill(t, pmax) < Thresh(t) || NumKeys(t) < MinKeys(t)
  }

  predicate Rich(t: Tree, pmax: int)
    requires 0 < pmax
  {
    Fill(t, pmax) >= Thresh(t) && NumKeys(t) > MinKeys(t)
  }

  lemma FillBelow(x: int, p: int, th: int)
    requires 0 < p
    ensures 1000 * x / p < th <==> 1000 * x < th * p
  {
    var q := 1000 * x / p;
    assert 1000 * x == p * q + 1000 * x % p;
    if q < th { Times(p, q, th - 1); } else { Times(p, th, q); }
  }

  /** A page is rebalanced when it is less than a quarter full, or empty; a branch page when it has
      less than a thousandth in use, or fewer than two children. */
  lemma PoorIff(t: Tree, pmax: int)
    requires 0 < pmax
    ensures Poor(t, pmax) <==>
            if t.LeafPage? then 4 * Used(t) < pmax || t.nodes == [] else 1000 * Used(t) < pmax || |t.kids| < 2
  {
    hide Used, Sum;
    FillBelow(Used(t), pmax, 250);
    FillBelow(Used(t), pmax, 1);
  }

  /** A neighbour gives up a node when it is as full as that, and keeps as many. */
  lemma RichIff(t: Tree, pmax: int)
    requires 0 < pmax
    ensures Rich(t, pmax) <==>
            if t.LeafPage? then pmax <= 4 * Used(t) && 2 <= |t.nodes| else pmax <= 1000 * Used(t) && 3 <= |t.kids|
  {
    hide Used, Sum;
    FillBelow(Used(t), pmax, 250);
    FillBelow(Used(t), pmax, 1);
  }

  /** The most the receiving page holds at any time, a restored first key and the key of a
      moved node included. */
  function Peak(l: Tree, r: Tree, pair: Pair, fromLeft: bool): int
    requires l.LeafPage? == r.LeafPage?
    requires (pair.Two? ==> 0 < NumKeys(if fromLeft then l else r)) && (l.BranchPage? ==> |l.seps| == |l.kids|)
  {
    var n := NumKeys(l) - 1;
    if pair.One? then Used(l) + Used(r) + if l.BranchPage? then SepSize(Low(r)) - SepSize([]) else 0
    else if fromLeft then
      Used(r) + if l.LeafPage? then ItemSize(l.nodes[n]) else SepSize(Low(r)) - SepSize([]) + SepSize(l.seps[n])
    else Used(l) + if l.LeafPage? then ItemSize(r.nodes[0]) else SepSize(Low(r))
  }

  /** A page within its size: items no larger than half of it, separators within the key size. */
  ghost predicate Sized(t: Tree, pmax: int) {
    && 0 <= Used(t) <= pmax
    && (t.LeafPage? ==> forall i :: 0 <= i < |t.nodes| ==> 2 * ItemSize(t.nodes[i]) <= pmax)
    && (t.BranchPage? ==>
          |t.seps| == |t.kids| && (forall i :: 0 <= i < |t.seps| ==> |t.seps[i]| <= MAXKEYSIZE) &&
            (0 < |t.seps| ==> t.seps[0] == []))
  }

  lemma QuotientBelow(x: int, p: int, th: int)
    requires 0 < p && x / p < th
    ensures x < th * p
  {
    assert x == p * (x / p) + x % p;
    Times(p, x / p, th - 1);
  }

  lemma Times(p: int, a: int, b: int)
    requires 0 < p && a <= b
    ensures p * a <= p * b
  {
  }

  lemma FewSeps(seps: seq<Bytes>)
    requires |seps| <= 2 && (0 < |seps| ==> seps[0] == []) && forall i :: 0 <= i < |seps| ==> |seps[i]| <= MAXKEYSIZE
    ensures Sum(SepSizes(seps)) <= if |seps| <= 1 then 10 else 532
  {
    var s := SepSizes(seps);
    assert Sum(s[..0]) == 0;
    if |s| > 0 {
      SumNext(s, 0);
      assert |s| == 1 ==> s[..1] == s;
      if |s| > 1 { SumNext(s, 1); assert s[..2] == s; }
    }
  }

  lemma FewNodes(nodes: seq<Node>, pmax: int)
    requires |nodes| <= 1 && 0 < pmax && forall i :: 0 <= i < |nodes| ==> 2 * ItemSize(nodes[i]) <= pmax
    ensures 2 * Sum(Sizes(nodes)) <= if nodes == [] then 0 else pmax
  {
    var s := Sizes(nodes);
    assert Sum(s[..0]) == 0;
    if |s| > 0 { SumNext(s, 0); assert s[..1] == s; }
  }

  /** A poor page is nearly empty. */
  lemma PoorUse(t: Tree, pmax: int)
    requires Sized(t, pmax) && 0 < pmax && Poor(t, pmax)
    ensures t.LeafPage? ==> 4 * Used(t) <= pmax
    ensures t.BranchPage? ==> Used(t) <= 10 || 1000 * Used(t) < pmax
  {
    if Fill(t, pmax) < Thresh(t) {
      QuotientBelow(1000 * Used(t), pmax, Thresh(t));
    } else if t.LeafPage? {
      FewNodes(t.nodes, pmax);
    } else {
      FewSeps(t.seps);
    }
  }

  /** A neighbour that can spare no node is small. */
  lemma NotRichUse(t: Tree, pmax: int)
    requires Sized(t, pmax) && 0 < pmax && !Rich(t, pmax)
    ensures t.LeafPage? ==> 2 * Used(t) <= pmax
    ensures t.BranchPage? ==> Used(t) <= 532 || 1000 * Used(t) < pmax
  {
    if Fill(t, pmax) < Thresh(t) {
      QuotientBelow(1000 * Used(t), pmax, Thresh(t));
    } else if t.LeafPage? {
      FewNodes(t.nodes, pmax);
    } else {
      FewSeps(t.seps);
    }
  }

  /** What a poor page and its neighbour become. */
  function Mend(l: Tree, r: Tree, fromLeft: bool, pmax: int): Pair
    requires l.LeafPage? == r.LeafPage? && 0 < NumKeys(if fromLeft then l else r) && 0 < pmax
    requires l.BranchPage? ==> |l.seps| == |l.kids| && |r.seps| == |r.kids| && r.seps != []
  {
    if fromLeft then (if Rich(l, pmax) then FromLeft(l, r) else Merge(l, r))
    else if Rich(r, pmax) then FromRight(l, r) else Merge(l, r)
  }

  /** Whichever is chosen, the receiving page has room. */
  lemma MendFits(l: Tree, r: Tree, fromLeft: bool, pmax: int)
    requires Sized(l, pmax) && Sized(r, pmax) && l.LeafPage? == r.LeafPage? && MIN_PSIZE - PAGEHDRSZ <= pmax
    requires 0 < NumKeys(if fromLeft then l else r) && (l.BranchPage? ==> l.kids != [] && r.kids != []) &&
            |Low(r)| <= MAXKEYSIZE
    requires Poor(if fromLeft then r else l, pmax)
    ensures Peak(l, r, Mend(l, r, fromLeft, pmax), fromLeft) <= pmax
  {
    hide Used, Fill, Poor, Rich, Sum, Low, Join, CutLeft, CutRight;
    var poor, other := if fromLeft then r else l, if fromLeft then l else r;
    PoorUse(poor, pmax);
    if !Rich(other, pmax) { NotRichUse(other, pmax); }
  }
}
