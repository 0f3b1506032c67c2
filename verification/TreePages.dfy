/** Rebalancing and splitting on page buffers do what Rebalance and TreeSplit say of trees. */
module TreePages {
  import opened ByteOrder
  import opened SlottedPage
  import opened PageNodes
  import opened PageSplit
  import opened SplitPoint
  import opened PageMerge
  import opened BTree
  import opened Rebalance
  import opened TreeSizes
  import opened TreeSplit

  /** The nodes of the page that is the top of t; its children have the page numbers pgs. */
  function View(t: Tree, pgs: seq<int>): (view: seq<Node>)
    ensures |view| == if t.LeafPage? then |t.nodes| else |t.seps|
    ensures t.BranchPage? && |pgs| == |t.seps| ==> forall i :: 0 <= i < |view| ==> view[i] == Branch(t.seps[i], pgs[i])
  {
    if t.LeafPage? then t.nodes
    else seq(|t.seps|, i requires 0 <= i < |t.seps| => Branch(t.seps[i], if i < |pgs| then pgs[i] else 0))
  }

  /** The page shows t. */
  ghost predicate Mirrors(nodes: seq<Bytes>, t: Tree, pgs: seq<int>) {
    (t.BranchPage? ==> |pgs| == |t.seps| == |t.kids|) && Shows(nodes, View(t, pgs))
  }

  lemma ViewUsed(t: Tree, pgs: seq<int>)
    requires t.BranchPage? ==> |pgs| == |t.seps|
    ensures Sum(Sizes(View(t, pgs))) == Used(t)
  {
    if t.BranchPage? { assert Sizes(View(t, pgs)) == SepSizes(t.seps); }
  }

  // ---- mdb_rebalance ----

  /** Two trees of one kind, and the page numbers of their children. */
  ghost predicate Alike(l: Tree, r: Tree, lg: seq<int>, rg: seq<int>, nodemax: int) {
    && l.LeafPage? == r.LeafPage?
    && (l.BranchPage? ==>
      |lg| == |l.seps| == |l.kids| > 0 && |rg| == |r.seps| == |r.kids| > 0 &&
      l.seps[0] == r.seps[0] == [])
    && Plain(View(l, lg), l.LeafPage?, nodemax) && Plain(View(r, rg), l.LeafPage?, nodemax)
  }

  /** The numbers of the children of the left and the right page after one moved. */
  function LeftPgs(lg: seq<int>, rg: seq<int>, fromLeft: bool): seq<int> {
    if fromLeft then (if lg == [] then [] else lg[..|lg| - 1]) else if rg == [] then lg else lg + [rg[0]]
  }

  function RightPgs(lg: seq<int>, rg: seq<int>, fromLeft: bool): seq<int> {
    if fromLeft then (if lg == [] then rg else [lg[|lg| - 1]] + rg) else if rg == [] then [] else rg[1..]
  }

  lemma MergeView(l: Tree, r: Tree, lg: seq<int>, rg: seq<int>, nodemax: int)
    requires Alike(l, r, lg, rg, nodemax)
    ensures var page := Merge(l, r).page;
            && (page.BranchPage? ==> |page.seps| == |page.kids| == |lg + rg|)
            && View(l, lg) + RestoredView(View(r, rg), Low(r)) == View(page, lg + rg)
            && Used(page) == Peak(l, r, Merge(l, r), true)
  {
    hide Low, Sum, SepSize, ItemSize;
    if r.LeafPage? {
      RestoredLeaf(r.nodes, Low(r), nodemax);
      SizesPlus(l.nodes, r.nodes);
    } else {
      var a, b := View(l, lg) + RestoredView(View(r, rg), Low(r)), View(Merge(l, r).page, lg + rg);
      assert |a| == |b|;
      forall i | 0 <= i < |a| ensures a[i] == b[i] {}
      JoinUsed(l, Low(r), r);
    }
  }

  lemma FromLeftView(l: Tree, r: Tree, lg: seq<int>, rg: seq<int>, nodemax: int)
    requires Alike(l, r, lg, rg, nodemax) && 1 < NumKeys(l)
    ensures var pair, sv, dv := FromLeft(l, r), View(l, lg), RestoredView(View(r, rg), Low(r));
            var n := |sv| - 1;
            && n > 0 && sv[n].key == pair.sep
            && sv[..n] == View(pair.l, LeftPgs(lg, rg, true)) &&
              [Lead(sv[n])] + dv == View(pair.r, RightPgs(lg, rg, true))
            && (pair.l.BranchPage? ==> |pair.l.seps| == |pair.l.kids| == |LeftPgs(lg, rg, true)|)
            && (pair.r.BranchPage? ==> |pair.r.seps| == |pair.r.kids| == |RightPgs(lg, rg, true)|)
  {
    if l.LeafPage? {
      FromLeftLeaf(l, r, lg, rg, nodemax);
    } else {
      FromLeftBranch(l, r, lg, rg, nodemax);
    }
    hide RestoredView, Low, Plain;
  }

  lemma FromLeftLeaf(l: Tree, r: Tree, lg: seq<int>, rg: seq<int>, nodemax: int)
    requires Alike(l, r, lg, rg, nodemax) && 1 < NumKeys(l) && l.LeafPage?
    ensures var pair, sv, dv := FromLeft(l, r), View(l, lg), RestoredView(View(r, rg), Low(r));
            var n := |sv| - 1;
            && n > 0 && sv[n].key == pair.sep
            && sv[..n] == View(pair.l, LeftPgs(lg, rg, true)) &&
              [Lead(sv[n])] + dv == View(pair.r, RightPgs(lg, rg, true))
            && pair.l.LeafPage? && pair.r.LeafPage?
  {
    hide Low;
    var sv := View(l, lg);
    RestoredLeaf(r.nodes, Low(r), nodemax);
    assert PlainNode(sv[|sv| - 1], true, nodemax);
  }

  lemma FromLeftBranch(l: Tree, r: Tree, lg: seq<int>, rg: seq<int>, nodemax: int)
    requires Alike(l, r, lg, rg, nodemax) && 1 < NumKeys(l) && l.BranchPage?
    ensures var pair, sv, dv := FromLeft(l, r), View(l, lg), RestoredView(View(r, rg), Low(r));
            var n := |sv| - 1;
            && n > 0 && sv[n].key == pair.sep
            && sv[..n] == View(pair.l, LeftPgs(lg, rg, true)) &&
              [Lead(sv[n])] + dv == View(pair.r, RightPgs(lg, rg, true))
            && (pair.l.BranchPage? ==> |pair.l.seps| == |pair.l.kids| == |LeftPgs(lg, rg, true)|)
            && (pair.r.BranchPage? ==> |pair.r.seps| == |pair.r.kids| == |RightPgs(lg, rg, true)|)
  {
    hide Low, Plain;
    LeftLoses(l, r, lg, rg, nodemax);
    RightGains(l, r, lg, rg, nodemax);
    hide View, RestoredView;
  }

  lemma LeftLoses(l: Tree, r: Tree, lg: seq<int>, rg: seq<int>, nodemax: int)
    requires Alike(l, r, lg, rg, nodemax) && 1 < NumKeys(l) && l.BranchPage?
    ensures var pair, sv := FromLeft(l, r), View(l, lg);
            var n := |sv| - 1;
            && n > 0 && sv[n].key == pair.sep && pair.l.BranchPage?
            && sv[..n] == View(pair.l, LeftPgs(lg, rg, true))
            && |pair.l.seps| == |pair.l.kids| == |LeftPgs(lg, rg, true)|
  {
    hide Low, Plain;
    var pair, sv := FromLeft(l, r), View(l, lg);
    var a := View(pair.l, LeftPgs(lg, rg, true));
    forall i | 0 <= i < |a| ensures a[i] == sv[..|sv| - 1][i] {}
  }

  lemma RightGains(l: Tree, r: Tree, lg: seq<int>, rg: seq<int>, nodemax: int)
    requires Alike(l, r, lg, rg, nodemax) && 1 < NumKeys(l) && l.BranchPage?
    ensures var pair, sv, dv := FromLeft(l, r), View(l, lg), RestoredView(View(r, rg), Low(r));
            && sv != [] && pair.r.BranchPage?
            && [Lead(sv[|sv| - 1])] + dv == View(pair.r, RightPgs(lg, rg, true))
            && |pair.r.seps| == |pair.r.kids| == |RightPgs(lg, rg, true)|
  {
    hide Low, Plain;
    var pair, sv, dv := FromLeft(l, r), View(l, lg), RestoredView(View(r, rg), Low(r));
    var b := View(pair.r, RightPgs(lg, rg, true));
    forall i | 0 <= i < |b| ensures b[i] == ([Lead(sv[|sv| - 1])] + dv)[i] {}
  }

  lemma FromRightView(l: Tree, r: Tree, lg: seq<int>, rg: seq<int>, nodemax: int)
    requires Alike(l, r, lg, rg, nodemax) && 1 < NumKeys(r)
    ensures var pair, sv, dv := FromRight(l, r), View(r, rg), View(l, lg);
            && |sv| > 1 && sv[1].key == pair.sep
            && [Lead(sv[1])] + sv[2..] == View(pair.r, RightPgs(lg, rg, false))
            && dv + [Restored(sv[0], true, Low(r))] == View(pair.l, LeftPgs(lg, rg, false))
            && (pair.l.BranchPage? ==> |pair.l.seps| == |pair.l.kids| == |LeftPgs(lg, rg, false)|)
            && (pair.r.BranchPage? ==> |pair.r.seps| == |pair.r.kids| == |RightPgs(lg, rg, false)|)
  {
    if l.LeafPage? {
      FromRightLeaf(l, r, lg, rg, nodemax);
    } else {
      FromRightBranch(l, r, lg, rg, nodemax);
    }
    hide Restored, Low, Plain;
  }

  lemma FromRightLeaf(l: Tree, r: Tree, lg: seq<int>, rg: seq<int>, nodemax: int)
    requires Alike(l, r, lg, rg, nodemax) && 1 < NumKeys(r) && l.LeafPage?
    ensures var pair, sv, dv := FromRight(l, r), View(r, rg), View(l, lg);
            && pair.l.LeafPage? && pair.r.LeafPage? && |sv| > 1 && sv[1].key == pair.sep
            && [Lead(sv[1])] + sv[2..] == View(pair.r, RightPgs(lg, rg, false))
            && dv + [Restored(sv[0], true, Low(r))] == View(pair.l, LeftPgs(lg, rg, false))
  {
    hide Low;
    var sv := View(r, rg);
    assert PlainNode(sv[0], true, nodemax) && PlainNode(sv[1], true, nodemax);
  }

  lemma FromRightBranch(l: Tree, r: Tree, lg: seq<int>, rg: seq<int>, nodemax: int)
    requires Alike(l, r, lg, rg, nodemax) && 1 < NumKeys(r) && l.BranchPage?
    ensures var pair, sv, dv := FromRight(l, r), View(r, rg), View(l, lg);
            && |sv| > 1 && sv[1].key == pair.sep
            && [Lead(sv[1])] + sv[2..] == View(pair.r, RightPgs(lg, rg, false))
            && dv + [Restored(sv[0], true, Low(r))] == View(pair.l, LeftPgs(lg, rg, false))
            && (pair.l.BranchPage? ==> |pair.l.seps| == |pair.l.kids| == |LeftPgs(lg, rg, false)|)
            && (pair.r.BranchPage? ==> |pair.r.seps| == |pair.r.kids| == |RightPgs(lg, rg, false)|)
  {
    hide Low, Plain;
    var pair, sv, dv := FromRight(l, r), View(r, rg), View(l, lg);
    var a, b := View(pair.l, LeftPgs(lg, rg, false)), View(pair.r, RightPgs(lg, rg, false));
    forall i | 0 <= i < |a| ensures a[i] == (dv + [Restored(sv[0], true, Low(r))])[i] {}
    forall i | 0 <= i < |b| ensures b[i] == ([Lead(sv[1])] + sv[2..])[i] {}
  }

  lemma LeafRoom(l: Tree, r: Tree, lg: seq<int>, rg: seq<int>, nodemax: int)
    requires Alike(l, r, lg, rg, nodemax) && l.LeafPage?
    ensures RestoredView(View(r, rg), Low(r)) == r.nodes
    ensures (1 < NumKeys(r) ==> Restored(r.nodes[0], true, Low(r)) == r.nodes[0])
  {
    hide Low;
    RestoredLeaf(r.nodes, Low(r), nodemax);
    if 1 < NumKeys(r) { assert PlainNode(r.nodes[0], true, nodemax); }
  }

  lemma BranchRoom(l: Tree, r: Tree, lg: seq<int>, rg: seq<int>, nodemax: int)
    requires Alike(l, r, lg, rg, nodemax) && l.BranchPage?
    ensures Sum(Sizes(RestoredView(View(r, rg), Low(r)))) == Used(r) - SepSize([]) + SepSize(Low(r))
    ensures ItemSize(Restored(View(r, rg)[0], true, Low(r))) == SepSize(Low(r))
    ensures forall i :: 0 <= i < |l.seps| ==> ItemSize(View(l, lg)[i]) == SepSize(l.seps[i])
  {
    hide Low, Sum, Used;
    ViewUsed(r, rg);
    RestoredLead(View(r, rg), Low(r), nodemax);
    hide RestoredView;
  }

  /** What the receiving page holds at most is what the page methods ask for. */
  lemma MoveRoom(l: Tree, r: Tree, lg: seq<int>, rg: seq<int>, nodemax: int)
    requires Alike(l, r, lg, rg, nodemax)
    ensures 1 < NumKeys(l) ==>
              ItemSize(View(l, lg)[|View(l, lg)| - 1]) + Sum(Sizes(RestoredView(View(r, rg), Low(r)))) == Peak(l, r,
                FromLeft(l, r), true)
    ensures 1 < NumKeys(r) ==>
              ItemSize(Restored(View(r, rg)[0], true, Low(r))) + Sum(Sizes(View(l, lg))) == Peak(l, r,
                FromRight(l, r), false)
  {
    hide Low, Sum, ItemSize, SepSize, RestoredView, Restored, FromLeft, FromRight;
    ViewUsed(l, lg);
    if l.LeafPage? {
      LeafRoom(l, r, lg, rg, nodemax);
    } else {
      BranchRoom(l, r, lg, rg, nodemax);
      hide Used;
    }
  }

  /** Does mdb_rebalance leave the page alone? */
  method FullEnough(p: Page, ghost t: Tree, ghost pgs: seq<int>) returns (full: bool)
    requires p.Valid() && Mirrors(p.Nodes(), t, pgs) && p.leaf == t.LeafPage? && PAGEHDRSZ < p.buf.Length
    ensures full == !Poor(t, p.buf.Length - PAGEHDRSZ)
    ensures var pmax := p.buf.Length - PAGEHDRSZ;
            full <==> if p.leaf then pmax <= 4 * Used(t) && t.nodes != [] else pmax <= 1000 * Used(t) && 2 <= |t.kids|
  {
    hide SlottedPage.Tiled, Shows, Sum, NodesOf;
    PageRoom(p, View(t, pgs));
    ViewUsed(t, pgs);
    var pmax := p.buf.Length - PAGEHDRSZ;
    PoorIff(t, pmax);
    var minkeys, thresh := if p.leaf then 1 else 2, if p.leaf then FILL_THRESHOLD else 1;
    full := 1000 * (pmax - (p.upper - p.lower)) / pmax >= thresh && p.NumKeys() >= minkeys;
  }

  /** The choice of mdb_rebalance: does the neighbour spare a node? */
  method Spares(p: Page, ghost t: Tree, ghost pgs: seq<int>) returns (rich: bool)
    requires p.Valid() && Mirrors(p.Nodes(), t, pgs) && p.leaf == t.LeafPage? && PAGEHDRSZ < p.buf.Length
    ensures rich == Rich(t, p.buf.Length - PAGEHDRSZ)
    ensures var pmax := p.buf.Length - PAGEHDRSZ;
            rich <==> if p.leaf then pmax <= 4 * Used(t) && 2 <= |t.nodes| else pmax <= 1000 * Used(t) && 3 <= |t.kids|
  {
    hide SlottedPage.Tiled, Shows, Sum, NodesOf;
    PageRoom(p, View(t, pgs));
    ViewUsed(t, pgs);
    var pmax := p.buf.Length - PAGEHDRSZ;
    RichIff(t, pmax);
    var minkeys, thresh := if p.leaf then 1 else 2, if p.leaf then FILL_THRESHOLD else 1;
    rich := 1000 * (pmax - (p.upper - p.lower)) / pmax >= thresh && p.NumKeys() > minkeys;
  }

  ghost predicate Apart(lp: Page, rp: Page) {
    lp != rp && lp.buf != rp.buf && lp.ptrs != rp.ptrs && lp.leaf == rp.leaf && lp.nodemax == rp.nodemax &&
      lp.buf.Length == rp.buf.Length
  }

  /** What became of two pages. */
  ghost predicate Mended(lp: seq<Bytes>, rp: seq<Bytes>, pair: Pair, fromLeft: bool, lg: seq<int>, rg: seq<int>) {
    match pair
    case One(page) => Mirrors(lp, page, lg + rg)
    case Two(l, _, r) => Mirrors(lp, l, LeftPgs(lg, rg, fromLeft)) && Mirrors(rp, r, RightPgs(lg, rg, fromLeft))
  }

  /** The part of mdb_rebalance that moves a node or merges: with room for the most the receiving
      page has to hold, the two pages become those of Mend. */
  method MendPages(lp: Page, rp: Page, fromLeft: bool, low: Bytes, ghost l: Tree, ghost r: Tree, ghost lg: seq<int>,
      ghost rg: seq<int>)
    returns (rc: int, merged: bool, sep: Bytes)
    requires lp.Valid() && rp.Valid() && Apart(lp, rp) && Alike(l, r, lg, rg, lp.nodemax) && lp.leaf == l.LeafPage?
    requires Mirrors(lp.Nodes(), l, lg) && Mirrors(rp.Nodes(), r, rg) && low == Low(r) && |low| <= MAXKEYSIZE
    requires MIN_PSIZE <= lp.buf.Length && 0 < NumKeys(if fromLeft then l else r)
    requires Peak(l, r, Mend(l, r, fromLeft, lp.buf.Length - PAGEHDRSZ), fromLeft) <= lp.buf.Length - PAGEHDRSZ
    modifies lp, lp.buf, lp.ptrs, rp, rp.buf, rp.ptrs
    ensures rc == MDB_SUCCESS && lp.Valid() && rp.Valid()
    ensures var pair := Mend(l, r, fromLeft, lp.buf.Length - PAGEHDRSZ);
            && merged == pair.One? && (pair.Two? ==> sep == pair.sep)
            && Mended(lp.Nodes(), rp.Nodes(), pair, fromLeft, lg, rg)
  {
    hide SlottedPage.Tiled, Shows, Sum, Sizes, NodesOf, Plain, ItemSize, RestoredView, Restored, View, Low, Used,
      Fill, FromLeft, FromRight, Merge;
    MoveRoom(l, r, lg, rg, lp.nodemax);
    sep := [];
    var rich;
    if fromLeft { rich := Spares(lp, l, lg); } else { rich := Spares(rp, r, rg); }
    merged := !rich;
    if merged {
      MergeView(l, r, lg, rg, lp.nodemax);
      ViewUsed(Merge(l, r).page, lg + rg);
      rc := MergePages(rp, lp, low, View(r, rg), View(l, lg));
    } else if fromLeft {
      FromLeftView(l, r, lg, rg, lp.nodemax);
      rc, sep := MoveFromLeft(lp, rp, low, View(l, lg), View(r, rg));
    } else {
      FromRightView(l, r, lg, rg, lp.nodemax);
      rc, sep := MoveFromRight(rp, lp, low, View(r, rg), View(l, lg));
    }
  }

  /** mdb_rebalance of a page, rp if its neighbour is on the left, else lp: it is left alone iff it is
      full enough, and otherwise there is room for what is done to the two. */
  method RebalancePages(lp: Page, rp: Page, fromLeft: bool, low: Bytes, ghost l: Tree, ghost r: Tree,
      ghost lg: seq<int>, ghost rg: seq<int>)
    returns (rc: int, touched: bool, merged: bool, sep: Bytes)
    requires lp.Valid() && rp.Valid() && Apart(lp, rp) && Alike(l, r, lg, rg, lp.nodemax) && lp.leaf == l.LeafPage?
    requires Mirrors(lp.Nodes(), l, lg) && Mirrors(rp.Nodes(), r, rg) && low == Low(r) && |low| <= MAXKEYSIZE
    requires MIN_PSIZE <= lp.buf.Length && 0 < NumKeys(if fromLeft then l else r)
    requires Sized(l, lp.buf.Length - PAGEHDRSZ) && Sized(r, lp.buf.Length - PAGEHDRSZ)
    modifies lp, lp.buf, lp.ptrs, rp, rp.buf, rp.ptrs
    ensures rc == MDB_SUCCESS && lp.Valid() && rp.Valid()
    ensures var pmax, page := lp.buf.Length - PAGEHDRSZ, if fromLeft then r else l;
            touched <==>
              if page.LeafPage? then 4 * Used(page) < pmax || page.nodes == []
              else 1000 * Used(page) < pmax || |page.kids| < 2
    ensures !touched ==> lp.Nodes() == old(lp.Nodes()) && rp.Nodes() == old(rp.Nodes())
    ensures touched ==>
              var pair := Mend(l, r, fromLeft, lp.buf.Length - PAGEHDRSZ);
              && merged == pair.One? && (pair.Two? ==> sep == pair.sep)
              && Mended(lp.Nodes(), rp.Nodes(), pair, fromLeft, lg, rg)
  {
    hide SlottedPage.Tiled, Shows, Sum, Sizes, NodesOf, Plain, ItemSize, View, Low, Used, Mend, Mended, Sized;
    var full;
    if fromLeft { full := FullEnough(rp, r, rg); } else { full := FullEnough(lp, l, lg); }
    rc, touched, merged, sep := MDB_SUCCESS, !full, false, [];
    if touched {
      MendFits(l, r, fromLeft, lp.buf.Length - PAGEHDRSZ);
      rc, merged, sep := MendPages(lp, rp, fromLeft, low, l, r, lg, rg);
    }
  }

  // ---- the parent's separator ----

  /** The page before and after separator k became `key`. */
  ghost predicate Renamed(t: Tree, u: Tree, k: int, key: Bytes, pgs: seq<int>) {
    && t.BranchPage? && u.BranchPage? && |pgs| == |t.seps| == |t.kids| == |u.kids| && 0 < k < |t.seps|
    && u.seps == t.seps[k := key] && t.seps[0] == [] && |key| <= MAXKEYSIZE
  }

  lemma RenamedView(t: Tree, u: Tree, k: int, key: Bytes, pgs: seq<int>, nodemax: int, ov: Bytes)
    requires Renamed(t, u, k, key, pgs) && Plain(View(t, pgs), false, nodemax)
    ensures var v, n := View(t, pgs), Branch(key, pgs[k]);
            && v[k] == Branch(t.seps[k], pgs[k]) && n.Ok() && Stored(n, nodemax, ov) == n
            && View(u, pgs) == v[k := n] == WithNew(v[..k] + v[k + 1..], k, n)
            && Plain(v[..k] + v[k + 1..], false, nodemax) && Sizes(View(u, pgs)) == SepSizes(u.seps)
  {
    var v, n := View(t, pgs), Branch(key, pgs[k]);
    assert PlainNode(v[k], false, nodemax);
    BranchStored(n, nodemax, ov);
    hide SepSize, ItemSize;
    assert View(u, pgs) == v[k := n];
    assert Sizes(View(u, pgs)) == SepSizes(u.seps) by { SeparatorSizes(u, pgs); }
    hide View, Sizes, SepSizes;
    OtherNode(v, k, n, nodemax);
  }

  lemma SeparatorSizes(u: Tree, pgs: seq<int>)
    requires u.BranchPage? && |pgs| == |u.seps|
    ensures Sizes(View(u, pgs)) == SepSizes(u.seps)
  {
  }

  lemma OtherNode(v: seq<Node>, k: int, n: Node, nodemax: int)
    requires 0 <= k < |v| && Plain(v, false, nodemax)
    ensures v[k := n] == WithNew(v[..k] + v[k + 1..], k, n) && Plain(v[..k] + v[k + 1..], false, nodemax)
  {
    hide PlainNode;
    var w := v[..k] + v[k + 1..];
    forall i | 0 <= i < |w| ensures PlainNode(w[i], false, nodemax) {
      assert PlainNode(v[if i < k then i else i + 1], false, nodemax);
    }
    assert w[..k] == v[..k] && w[k..] == v[k + 1..];
  }

  lemma RenamedRoom(t: Tree, u: Tree, k: int, key: Bytes, pgs: seq<int>)
    requires Renamed(t, u, k, key, pgs)
    ensures Used(u) == Used(t) - SepSize(t.seps[k]) + SepSize(key)
    ensures SepSize(key) == NODESIZE + Even(|key|) + 2 == ItemSize(Branch(key, pgs[k]))
    ensures ItemSize(View(t, pgs)[k]) == SepSize(t.seps[k]) && Sum(Sizes(View(t, pgs))) == Used(t)
  {
    RekeyUsed(t, k, key);
    ViewUsed(t, pgs);
    SeparatorNode(key, pgs[k]);
    SeparatorNode(t.seps[k], pgs[k]);
    hide Sum, SepSize, ItemSize, Even;
  }

  lemma SeparatorNode(s: Bytes, pg: int)
    ensures SepSize(s) == NODESIZE + Even(|s|) + 2 == ItemSize(Branch(s, pg))
  {
  }

  lemma PartsView(u: Tree, pgs: seq<int>, split: int)
    requires u.BranchPage? && |pgs| == |u.seps| == |u.kids| && 0 < split < |u.seps| && u.seps[0] == []
    ensures Part(View(u, pgs), 0, split) == View(CutLeft(u, split), pgs[..split])
    ensures Part(View(u, pgs), split, |u.seps|) == View(CutRight(u, split), pgs[split..])
    ensures View(u, pgs)[split].key == u.seps[split]
  {
    var a, b := Part(View(u, pgs), 0, split), View(CutLeft(u, split), pgs[..split]);
    forall i | 0 <= i < split ensures a[i] == b[i] {}
    var c, e := Part(View(u, pgs), split, |u.seps|), View(CutRight(u, split), pgs[split..]);
    forall i | 0 <= i < |c| ensures c[i] == e[i] {}
  }

  /** The pages are what Settle says. */
  ghost predicate Settled(out: Outcome, u: Tree, pgs: seq<int>, mp: seq<Bytes>, rp: seq<Bytes>, sep: Bytes) {
    match out
    case Kept(_) => Mirrors(mp, u, pgs)
    case Cut(l, s, r) =>
      && l.BranchPage? && |l.kids| <= |pgs| && sep == s
      && Mirrors(mp, l, pgs[..|l.kids|]) && Mirrors(rp, r, pgs[|l.kids|..])
    case _ => false
  }

  lemma RekeyedShows(nodes: seq<Bytes>, view: seq<Node>, k: int, x: Bytes, key: Bytes)
    requires Shows(nodes, view) && 0 <= k < |view| && view[k].Branch? && Rekeyed(nodes[k], x, key)
    requires |key| <= MAXKEYSIZE
    ensures Shows(nodes[k := x], view[k := Branch(key, view[k].pgno)])
  {
    RekeyedHolds(nodes[k], view[k], x, key);
    hide Holds;
  }

  /** mdb_update_key of a separator of a branch page, and the split that follows when the page has
      no room for it. */
  method RekeyPage(mp: Page, k: int, key: Bytes, ghost t: Tree, ghost u: Tree, ghost pgs: seq<int>)
    returns (rc: int, rp: Page?, sep: Bytes)
    requires mp.Valid() && !mp.leaf && Mirrors(mp.Nodes(), t, pgs) && Plain(View(t, pgs), false, mp.nodemax)
    requires mp.nodemax == NodeMax(mp.buf.Length) && MIN_PSIZE <= mp.buf.Length
    requires Renamed(t, u, k, key, pgs) && Swollen(u, k, mp.buf.Length - PAGEHDRSZ)
    modifies mp, mp.buf, mp.ptrs
    ensures rc == MDB_SUCCESS <==> !Settle(u, k, mp.buf.Length).Failed?
    ensures rc == MDB_SUCCESS ==>
              && mp.Valid() && (rp != null ==> rp.Valid()) && (rp == null <==> Settle(u, k, mp.buf.Length).Kept?)
              && Settled(Settle(u, k, mp.buf.Length), u, pgs, mp.Nodes(), if rp == null then [] else rp.Nodes(), sep)
  {
    hide SlottedPage.Tiled, Shows, Sum, Sizes, NodesOf, Plain, ItemSize, View, Used, Settle, Rekeyed, Holds,
      BranchNode, Swollen,
         Stored, SepSize, WithNew, Part, MiddleRoom, Done, SplitIndex;
    rp, sep := null, [];
    ghost var nodes, view := mp.Nodes(), View(t, pgs);
    PageRoom(mp, view);
    RenamedView(t, u, k, key, pgs, mp.nodemax, seq(8, _ => 0));
    RenamedRoom(t, u, k, key, pgs);
    ShownAt(nodes, view, k);
    SettleIff(u, k, mp.buf.Length);
    var node := mp.Read(k, view[k]);
    ghost var x;
    rc, x := mp.UpdateKey(k, key);
    if rc == MDB_SUCCESS {
      RekeyedShows(nodes, view, k, x, key);
      assert Settle(u, k, mp.buf.Length).Kept?;
    } else {
      Removed1(nodes, view, k);
      PageRoom(mp, view[..k] + view[k + 1..]);
      SumWith(view[..k] + view[k + 1..], k, Branch(key, node.pgno));
      ViewUsed(u, pgs);
      rc, rp, sep := CutPage(mp, k, Branch(key, node.pgno), view[..k] + view[k + 1..], u, pgs);
    }
  }

  lemma ShownAt(nodes: seq<Bytes>, view: seq<Node>, k: int)
    requires Shows(nodes, view) && 0 <= k < |view|
    ensures |nodes| == |view| && Holds(nodes[k], view[k]) && |nodes[k]| + 2 == ItemSize(view[k])
  {
    HoldsSize(nodes[k], view[k]);
  }

  /** mdb_page_split of a branch page that shows u without its node k. */
  method CutPage(mp: Page, k: int, n: Node, ghost view: seq<Node>, ghost u: Tree, ghost pgs: seq<int>)
    returns (rc: int, rp: Page?, sep: Bytes)
    requires mp.Valid() && !mp.leaf && Shows(mp.Nodes(), view) && Plain(view, false, mp.nodemax)
    requires mp.nodemax == NodeMax(mp.buf.Length) && MIN_PSIZE <= mp.buf.Length && 0 <= k <= |view|
    requires n.Branch? && n.Ok() && u.BranchPage? && |pgs| == |u.seps| == |u.kids|
    requires Swollen(u, k, mp.buf.Length - PAGEHDRSZ)
    requires View(u, pgs) == WithNew(view, k, n) && Sizes(View(u, pgs)) == SepSizes(u.seps)
    requires mp.upper - mp.lower < ItemSize(n) && mp.buf.Length - PAGEHDRSZ < Used(u)
    modifies mp, mp.buf, mp.ptrs
    ensures rc == MDB_SUCCESS <==> !Settle(u, k, mp.buf.Length).Failed?
    ensures rc == MDB_SUCCESS ==>
              && mp.Valid() && rp != null && rp.Valid() && Settle(u, k, mp.buf.Length).Cut?
              && Settled(Settle(u, k, mp.buf.Length), u, pgs, mp.Nodes(), rp.Nodes(), sep)
  {
    hide SlottedPage.Tiled, Shows, Sum, Sizes, NodesOf, Plain, ItemSize, View, Used, Holds, Stored, SepSize, WithNew,
      Part, MiddleRoom, SplitIndex, Settle, Done;
    var ov: Bytes := seq(8, _ => 0);
    BranchStored(n, mp.nodemax, ov);
    SumWith(view, k, n);
    SettleIff(u, k, mp.buf.Length);
    var at;
    ghost var split;
    rc, rp, sep, at, split := Split(mp, k, n, ov, view);
    if rc == MDB_SUCCESS { CutSettled(u, k, mp.buf.Length, pgs, split, mp.Nodes(), rp.Nodes(), sep, at); }
  }

  lemma BranchStored(n: Node, nodemax: int, ov: Bytes)
    requires n.Branch? && n.Ok()
    ensures Stored(n, nodemax, ov) == n
  {
  }

  lemma CutSettled(u: Tree, k: int, psize: int, pgs: seq<int>, split: int, mp: seq<Bytes>, rp: seq<Bytes>, sep: Bytes,
      at: Place)
    requires u.BranchPage? && |pgs| == |u.seps| == |u.kids| && MIN_PSIZE <= psize && Swollen(u, k, psize - PAGEHDRSZ)
    requires psize - PAGEHDRSZ < Used(u) && Sizes(View(u, pgs)) == SepSizes(u.seps) && !Settle(u, k, psize).Failed?
    requires split == SplitIndex(SepSizes(u.seps), k, false, psize - PAGEHDRSZ, psize / 128)
    requires Done(mp, rp, View(u, pgs), split, k, sep, at)
    ensures Settle(u, k, psize).Cut? && Settled(Settle(u, k, psize), u, pgs, mp, rp, sep)
  {
    hide Shows, Used, Sum, Sizes, View, Holds, SplitIndex, Part, MiddleRoom;
    SettleIff(u, k, psize);
    PartsView(u, pgs, split);
  }
}
