/** Deleting an entry: rebalancing, and the splits it may cause, up to the root. */
module TreeDelete {
  import opened ByteOrder
  import opened SlottedPage
  import opened PageNodes
  import opened BTree
  import opened PageSplit
  import opened SplitPoint
  import opened Rebalance
  import opened TreeSizes
  import opened TreeSplit

  function Without<T>(s: seq<T>, i: int): seq<T>
    requires 0 <= i < |s|
  {
    s[..i] + s[i + 1..]
  }

  /** Child i and its siblings are pages of one kind, and the siblings are not empty. */
  predicate Mendable(t: Tree, i: int) {
    && t.BranchPage? && |t.seps| == |t.kids| && 2 <= |t.kids| && 0 <= i < |t.kids|
    && (forall k :: 0 <= k < |t.kids| ==> Kind(t.kids[k], t.kids[0].LeafPage?) && (k != i ==> 0 < NumKeys(t.kids[k])))
  }

  predicate Kind(t: Tree, leaf: bool) {
    t.LeafPage? == leaf && (t.BranchPage? ==> |t.seps| == |t.kids| && t.kids != [])
  }

  /** A page whose child i may be short of nodes. */
  ghost predicate Wounded(t: Tree, d: nat, i: int) {
    && d > 0 && t.BranchPage? && SepsOk(t) && 2 <= |t.kids| && 0 <= i < |t.kids|
    && (forall k :: 0 <= k < |t.kids| && k != i ==> Strong(t.kids[k], d - 1))
    && Weak(t.kids[i], d - 1)
  }

  lemma WoundedMendable(t: Tree, d: nat, i: int)
    requires Wounded(t, d, i)
    ensures Mendable(t, i)
  {
    forall k | 0 <= k < |t.kids|
      ensures Kind(t.kids[k], t.kids[0].LeafPage?) && (k != i ==> 0 < NumKeys(t.kids[k]))
    {
      assert Weak(t.kids[k], d - 1) && Weak(t.kids[0], d - 1);
    }
  }

  lemma MendOk(l: Tree, r: Tree, d: nat, fromLeft: bool, pmax: int)
    requires 0 < pmax && Weak(l, d) && Weak(r, d)
    requires Strong(if fromLeft then l else r, d) && Sorted(InOrder(l) + InOrder(r))
    ensures l.LeafPage? == r.LeafPage?
    ensures (l.BranchPage? ==> |l.seps| == |l.kids| && |r.seps| == |r.kids| && r.seps != [])
    ensures PairOk(Mend(l, r, fromLeft, pmax), d, InOrder(l) + InOrder(r))
  {
    hide Fill, Sorted;
    if d == 0 {
      LeafMoves(l, r);
    } else if fromLeft && Rich(l, pmax) {
      BranchFromLeft(l, r, d);
    } else if !fromLeft && Rich(r, pmax) {
      BranchFromRight(l, r, d);
    } else {
      BranchMerge(l, r, d);
    }
  }

  lemma KidsSorted(t: Tree, i: int)
    requires t.BranchPage? && Sorted(InOrder(t)) && 0 <= i && i + 1 < |t.kids|
    ensures Sorted(InOrder(t.kids[i]) + InOrder(t.kids[i + 1]))
  {
    InOrderBelow(t);
    var a, b, m := t.kids[..i], t.kids[i + 2..], [t.kids[i], t.kids[i + 1]];
    assert t.kids == a + (m + b);
    BelowPlus(a, m + b);
    BelowPlus(m, b);
    BelowTwo(t.kids[i], t.kids[i + 1]);
    hide InOrder, Below;
    SortedParts(Below(a), Below(m) + Below(b));
    SortedParts(Below(m), Below(b));
  }

  // ---- the whole way ----

  /** The child taken on each level, and the place in the leaf. */
  predicate PathOk(t: Tree, path: seq<int>)
    decreases t
  {
    path != [] && 0 <= path[0] < NumKeys(t) &&
    if t.LeafPage? then |path| == 1 else PathOk(t.kids[path[0]], path[1..])
  }

  /** The position of a path's entry among all. */
  function Rank(t: Tree, path: seq<int>): int
    requires PathOk(t, path)
    decreases t
  {
    if t.LeafPage? then path[0] else |Below(t.kids[..path[0]])| + Rank(t.kids[path[0]], path[1..])
  }

  function Swap(t: Tree, i: int, kid: Tree): Tree
    requires t.BranchPage? && 0 <= i < |t.kids|
  {
    BranchPage(t.seps, t.kids[i := kid])
  }

  /** mdb_rebalance of child i, which lost a node: nothing, or a merge, after which this page
      lost a node too, or a move, after which this page has a new separator. */
  function Repair(t: Tree, i: int, psize: int): Outcome
    requires PAGEHDRSZ < psize && Mendable(t, i)
  {
    var pmax, j := psize - PAGEHDRSZ, if i == 0 then 0 else i - 1;
    if !Poor(t.kids[i], pmax) then Kept(t)
    else
      var pair := Mend(t.kids[j], t.kids[j + 1], i != 0, pmax);
      if pair.One? then Lost(Replace(t, j, pair)) else Settle(Replace(t, j, pair), j + 1, psize)
  }

  /** What a branch page becomes when its child i becomes `out`. */
  function Climb(t: Tree, i: int, out: Outcome, psize: int): Outcome
    requires PAGEHDRSZ < psize && t.BranchPage? && |t.seps| == |t.kids| && 0 <= i < |t.kids|
  {
    match out
    case Failed => Failed
    case Kept(kid) => Kept(Swap(t, i, kid))
    case Cut(l, sep, r) => Settle(AddKid(t, i, l, sep, r), i + 1, psize)
    case Lost(kid) => if Mendable(Swap(t, i, kid), i) then Repair(Swap(t, i, kid), i, psize) else Kept(Swap(t, i, kid))
  }

  /** mdb_cursor_del: the entry goes, and the pages above follow one by one. */
  function DeleteAt(t: Tree, path: seq<int>, psize: int): Outcome
    requires PAGEHDRSZ < psize && PathOk(t, path) && SameLengths(t)
    decreases t
  {
    if t.LeafPage? then Lost(LeafPage(Without(t.nodes, path[0])))
    else Climb(t, path[0], DeleteAt(t.kids[path[0]], path[1..], psize), psize)
  }

  /** Every child has a separator. */
  predicate SameLengths(t: Tree)
    decreases t
  {
    t.BranchPage? ==> |t.seps| == |t.kids| && forall i :: 0 <= i < |t.kids| ==> SameLengths(t.kids[i])
  }

  /** The whole tree: the root goes when it has a single child, and gets a page above it when it
      was cut. */
  function Whole(out: Outcome): Outcome {
    match out
    case Failed => Failed
    case Kept(page) => Kept(page)
    case Lost(page) => Kept(Collapse(page))
    case Cut(l, sep, r) => Kept(BranchPage([[], sep], [l, r]))
  }

  function Delete(t: Tree, path: seq<int>, psize: int): Outcome
    requires PAGEHDRSZ < psize && PathOk(t, path) && SameLengths(t)
  {
    Whole(DeleteAt(t, path, psize))
  }

  /** The root goes when it has a single child. */
  function Collapse(t: Tree): Tree {
    if t.BranchPage? && |t.kids| == 1 then t.kids[0] else t
  }

  lemma SwapBelow(t: Tree, i: int, kid: Tree)
    requires t.BranchPage? && 0 <= i < |t.kids|
    ensures InOrder(t) == Below(t.kids[..i]) + InOrder(t.kids[i]) + Below(t.kids[i + 1..])
    ensures InOrder(Swap(t, i, kid)) == Below(t.kids[..i]) + InOrder(kid) + Below(t.kids[i + 1..])
  {
    hide Below, InOrder;
    InOrderBelow(t);
    InOrderBelow(Swap(t, i, kid));
    var a, b := t.kids[..i], t.kids[i + 1..];
    assert t.kids == a + ([t.kids[i]] + b);
    assert t.kids[i := kid] == a + ([kid] + b);
    BelowPlus(a, [t.kids[i]] + b);
    BelowPlus([t.kids[i]], b);
    BelowPlus(a, [kid] + b);
    BelowPlus([kid], b);
    BelowOne(t.kids[i]);
    BelowOne(kid);
  }

  /** With fewer entries below child i, its separators still stand. */
  lemma SwapSeps(t: Tree, i: int, kid: Tree, k: int)
    requires t.BranchPage? && SepsOk(t) && 0 <= i < |t.kids| && 0 <= k < |InOrder(t.kids[i])|
    requires InOrder(kid) == Without(InOrder(t.kids[i]), k)
    ensures SepsOk(Swap(t, i, kid))
  {
    var t', was, now := Swap(t, i, kid), InOrder(t.kids[i]), InOrder(kid);
    hide InOrder;
    forall j | 0 <= j < |now| ensures now[j] == was[if j < k then j else j + 1] {}
    forall j, l | 0 <= j && l == j + 1 && l < |t'.kids| ensures Between(t'.kids[j], t'.seps[l], t'.kids[l]) {
      assert Between(t.kids[j], t.seps[l], t.kids[l]);
    }
  }

  lemma WithoutMiddle<T>(a: seq<T>, b: seq<T>, c: seq<T>, k: int)
    requires 0 <= k < |b|
    ensures a + Without(b, k) + c == Without(a + b + c, |a| + k)
  {
  }

  lemma SortedWithout(s: seq<Node>, k: int)
    requires Sorted(s) && 0 <= k < |s|
    ensures Sorted(Without(s, k))
  {
    var r := Without(s, k);
    forall i, j | 0 <= i < j < |r| ensures Lt(r[i].key, r[j].key) {
      var i', j' := if i < k then i else i + 1, if j < k then j else j + 1;
      assert Lt(s[i'].key, s[j'].key);
    }
  }

  lemma {:induction false} Lengths(t: Tree, d: nat)
    requires Weak(t, d)
    ensures SameLengths(t)
    decreases d
  {
    if d > 0 {
      forall i | 0 <= i < |t.kids| ensures SameLengths(t.kids[i]) { Lengths(t.kids[i], d - 1); }
    }
  }

  /** The neighbours and the page above them, before anybody asks whether its separators fit. */
  lemma MendedOk(t: Tree, d: nat, i: int, pmax: int)
    requires Wounded(t, d, i) && Sorted(InOrder(t)) && AllSized(t, pmax) && MIN_PSIZE - PAGEHDRSZ <= pmax
    requires Mendable(t, i) && Poor(t.kids[i], pmax)
    ensures var j := if i == 0 then 0 else i - 1;
            var pair := Mend(t.kids[j], t.kids[j + 1], i != 0, pmax);
            && PairSized(pair, pmax)
            && Weak(Replace(t, j, pair), d) && InOrder(Replace(t, j, pair)) == InOrder(t)
  {
    hide Poor, Sorted, InOrder, Mend, Replace, SepsOk, Used, PairSized, Low, Fill;
    var j := if i == 0 then 0 else i - 1;
    KidsSorted(t, j);
    MendOk(t.kids[j], t.kids[j + 1], d - 1, i != 0, pmax);
    MendSized(t.kids[j], t.kids[j + 1], i != 0, pmax);
    ReplaceOk(t, d, j, Mend(t.kids[j], t.kids[j + 1], i != 0, pmax));
  }

  /** Rebalancing keeps the entries, and leaves valid pages within their size. */
  lemma RepairOk(t: Tree, d: nat, i: int, psize: int)
    requires Wounded(t, d, i) && Sorted(InOrder(t)) && AllSized(t, psize - PAGEHDRSZ) && MIN_PSIZE <= psize
    ensures Mendable(t, i) && OutcomeOk(Repair(t, i, psize), d, InOrder(t), psize - PAGEHDRSZ)
  {
    hide Poor, Sorted, InOrder, Mend, Replace, SepsOk, AllSized, PairSized, Weak, Strong, Settle, OutcomeOk, Low, Fill;
    WoundedMendable(t, d, i);
    var pmax, j := psize - PAGEHDRSZ, if i == 0 then 0 else i - 1;
    if Poor(t.kids[i], pmax) {
      MendedOk(t, d, i, pmax);
      var pair := Mend(t.kids[j], t.kids[j + 1], i != 0, pmax);
      if pair.One? {
        MergedOk(t, d, j, pair, pmax);
      } else {
        MovedOk(t, d, j, pair, psize);
      }
    } else {
      NotPoor(t, d, i, pmax);
      KeptOk(t, d, pmax);
    }
  }

  /** What is done about a page that lost a node, by the sizes alone: nothing if it is full enough,
      a move if the neighbour can spare a node, and a merge otherwise. */
  lemma RepairWhen(t: Tree, i: int, psize: int)
    requires PAGEHDRSZ < psize && Mendable(t, i)
    ensures var pmax, page, other := psize - PAGEHDRSZ, t.kids[i], t.kids[if i == 0 then 1 else i - 1];
            var full := if page.LeafPage? then pmax <= 4 * Used(page) && 1 <= |page.nodes|
                        else pmax <= 1000 * Used(page) && 2 <= |page.kids|;
            var spare := if other.LeafPage? then pmax <= 4 * Used(other) && 2 <= |other.nodes|
                         else pmax <= 1000 * Used(other) && 3 <= |other.kids|;
            && (full ==> Repair(t, i, psize) == Kept(t))
            && (!full && spare && i == 0 ==>
              Repair(t, i, psize) == Settle(Replace(t, 0, FromRight(page, other)), 1, psize))
            && (!full && spare && i != 0 ==>
              Repair(t, i, psize) == Settle(Replace(t, i - 1, FromLeft(other, page)), i, psize))
            && (!full && !spare ==>
              Repair(t, i, psize) ==
                Lost(if i == 0 then Replace(t, 0, Merge(page, other)) else Replace(t, i - 1, Merge(other, page))))
  {
    hide Used, Poor, Rich, Replace, FromLeft, FromRight, Settle;
    PoorIff(t.kids[i], psize - PAGEHDRSZ);
    RichIff(t.kids[if i == 0 then 1 else i - 1], psize - PAGEHDRSZ);
  }

  lemma KeptOk(t: Tree, d: nat, pmax: int)
    requires d > 0 && Strong(t, d) && AllSized(t, pmax)
    ensures OutcomeOk(Kept(t), d, InOrder(t), pmax)
  {
  }

  lemma MergedOk(t: Tree, d: nat, j: int, pair: Pair, pmax: int)
    requires t.BranchPage? && AllSized(t, pmax) && 0 <= j && j + 1 < |t.kids| && pair.One? && PairSized(pair, pmax)
    requires Weak(Replace(t, j, pair), d) && InOrder(Replace(t, j, pair)) == InOrder(t)
    ensures OutcomeOk(Lost(Replace(t, j, pair)), d, InOrder(t), pmax)
  {
    hide InOrder, Weak, Replace;
    UnlinkFits(t, j, pair.page, pmax);
  }

  lemma MovedOk(t: Tree, d: nat, j: int, pair: Pair, psize: int)
    requires d > 0 && t.BranchPage? && AllSized(t, psize - PAGEHDRSZ) && MIN_PSIZE <= psize && 0 <= j
    requires j + 1 < |t.kids|
    requires pair.Two? && PairSized(pair, psize - PAGEHDRSZ) && Sorted(InOrder(t))
    requires Weak(Replace(t, j, pair), d) && InOrder(Replace(t, j, pair)) == InOrder(t)
    ensures OutcomeOk(Settle(Replace(t, j, pair), j + 1, psize), d, InOrder(t), psize - PAGEHDRSZ)
  {
    hide Sorted, InOrder, Weak, Settle, OutcomeOk, Replace;
    MovedSwells(t, j, pair.l, pair.sep, pair.r, psize - PAGEHDRSZ);
    ManyKids(Replace(t, j, pair), d);
    SettleOk(Replace(t, j, pair), d, j + 1, psize);
  }

  lemma NotPoor(t: Tree, d: nat, i: int, pmax: int)
    requires Wounded(t, d, i) && 0 < pmax && !Poor(t.kids[i], pmax)
    ensures Strong(t, d)
  {
    hide InOrder, SepsOk, Fill;
    assert Strong(t.kids[i], d - 1);
  }

  lemma ManyKids(t: Tree, d: nat)
    requires d > 0 && Weak(t, d) && 2 <= |t.kids|
    ensures Strong(t, d)
  {
  }

  lemma MovedSwells(t: Tree, j: int, l: Tree, sep: Bytes, r: Tree, pmax: int)
    requires t.BranchPage? && AllSized(t, pmax) && 0 <= j && j + 1 < |t.kids| && PairSized(Two(l, sep, r), pmax)
    ensures Swollen(Replace(t, j, Two(l, sep, r)), j + 1, pmax)
    ensures |Replace(t, j, Two(l, sep, r)).kids| == |t.kids|
  {
    RekeyFits(t, j, l, sep, r, pmax);
    SepOne(t.seps[j + 1]);
    hide Used, SepSize;
    var t' := Replace(t, j, Two(l, sep, r));
    forall k | 0 <= k < |t'.kids| ensures AllSized(t'.kids[k], pmax) {}
  }

  lemma AddedSwells(t: Tree, i: int, l: Tree, sep: Bytes, r: Tree, pmax: int)
    requires t.BranchPage? && AllSized(t, pmax) && 0 <= i < |t.kids| && PairSized(Two(l, sep, r), pmax)
    ensures Swollen(AddKid(t, i, l, sep, r), i + 1, pmax)
  {
    AddKidUsed(t, i, l, sep, r);
    AddedKids(t, i, l, sep, r, pmax);
    hide Used, SepSize, KidsSized;
    var t' := AddKid(t, i, l, sep, r);
    forall k | 0 <= k < |t'.seps| ensures |t'.seps[k]| <= MAXKEYSIZE {
      assert t'.seps[k] == if k <= i then t.seps[k] else if k == i + 1 then sep else t.seps[k - 1];
    }
  }

  lemma AddedKids(t: Tree, i: int, l: Tree, sep: Bytes, r: Tree, pmax: int)
    requires t.BranchPage? && |t.seps| == |t.kids| && KidsSized(t, pmax) && 0 <= i < |t.kids|
    requires AllSized(l, pmax) && AllSized(r, pmax)
    ensures KidsSized(AddKid(t, i, l, sep, r), pmax)
  {
    hide AllSized;
    var t' := AddKid(t, i, l, sep, r);
    forall k | 0 <= k < |t'.kids| ensures AllSized(t'.kids[k], pmax) {
      assert t'.kids[k] == if k < i then t.kids[k] else if k == i then l else if k == i + 1 then r else t.kids[k - 1];
    }
  }

  lemma SwapSized(t: Tree, i: int, kid: Tree, pmax: int)
    requires t.BranchPage? && AllSized(t, pmax) && 0 <= i < |t.kids| && AllSized(kid, pmax)
    ensures AllSized(Swap(t, i, kid), pmax)
  {
    hide Used;
    var t' := Swap(t, i, kid);
    assert Used(t') == Used(t) by { SameUse(t, t'); }
    forall k | 0 <= k < |t'.kids| ensures AllSized(t'.kids[k], pmax) {}
  }

  lemma SameUse(t: Tree, t': Tree)
    requires t.BranchPage? && t'.BranchPage? && t'.seps == t.seps
    ensures Used(t') == Used(t)
  {
  }

  /** One level up: whatever child i became, with entry k gone from it. */
  lemma ClimbOk(t: Tree, d: nat, i: int, out: Outcome, k: int, psize: int)
    requires d > 0 && Weak(t, d) && 2 <= |t.kids| && 0 <= i < |t.kids| && Sorted(InOrder(t)) && MIN_PSIZE <= psize
    requires AllSized(t, psize - PAGEHDRSZ) && 0 <= k < |InOrder(t.kids[i])|
    requires OutcomeOk(out, d - 1, Without(InOrder(t.kids[i]), k), psize - PAGEHDRSZ)
    ensures var n := |Below(t.kids[..i])| + k;
            0 <= n < |InOrder(t)| && OutcomeOk(Climb(t, i, out, psize), d, Without(InOrder(t), n), psize - PAGEHDRSZ)
  {
    var pmax, now := psize - PAGEHDRSZ, Without(InOrder(t.kids[i]), k);
    hide Sorted, InOrder, Below, Repair, Settle, AddKid, AllSized, SepsOk, Mendable, Without;
    match out
    case Failed => SwapBelow(t, i, t.kids[i]);
    case Kept(kid) =>
      DeleteStep(t, d, i, kid, k);
      SwapSized(t, i, kid, pmax);
      Healed(t, d, i, kid);
    case Lost(kid) =>
      DeleteStep(t, d, i, kid, k);
      SwapSized(t, i, kid, pmax);
      RepairOk(Swap(t, i, kid), d, i, psize);
    case Cut(l, sep, r) =>
      AddStep(t, d, i, l, sep, r, k);
      AddedSwells(t, i, l, sep, r, pmax);
      SettleOk(AddKid(t, i, l, sep, r), d, i + 1, psize);
  }

  lemma Healed(t: Tree, d: nat, i: int, kid: Tree)
    requires d > 0 && Weak(t, d) && 2 <= |t.kids| && 0 <= i < |t.kids| && Strong(kid, d - 1) && SepsOk(Swap(t, i, kid))
    ensures Strong(Swap(t, i, kid), d)
  {
  }

  /** One entry less below child i, which was cut in two. */
  lemma AddStep(t: Tree, d: nat, i: int, l: Tree, sep: Bytes, r: Tree, k: int)
    requires d > 0 && Weak(t, d) && 2 <= |t.kids| && 0 <= i < |t.kids| && Sorted(InOrder(t))
    requires 0 <= k < |InOrder(t.kids[i])|
    requires PairOk(Two(l, sep, r), d - 1, Without(InOrder(t.kids[i]), k))
    ensures var t', n := AddKid(t, i, l, sep, r), |Below(t.kids[..i])| + k;
            && Strong(t', d) && 0 <= n < |InOrder(t)| && InOrder(t') == Without(InOrder(t), n) && Sorted(InOrder(t'))
  {
    // a page with the entries of both stands in for child i
    var kid := LeafPage(Without(InOrder(t.kids[i]), k));
    var t1 := Swap(t, i, kid);
    hide Below, Sorted, PairOk;
    SwapBelow(t, i, kid);
    SwapSeps(t, i, kid, k);
    AddKidOk(t1, d, i, l, sep, r);
    assert AddKid(t1, i, l, sep, r) == AddKid(t, i, l, sep, r);
    assert InOrder(kid) == Without(InOrder(t.kids[i]), k);
    hide InOrder, Weak, Without, AddKid;
    EntryGone(t, t1, i, k);
    ManyKids(AddKid(t1, i, l, sep, r), d);
  }

  lemma EntryGone(t: Tree, t1: Tree, i: int, k: int)
    requires t.BranchPage? && 0 <= i < |t.kids| && 0 <= k < |InOrder(t.kids[i])| && Sorted(InOrder(t))
    requires InOrder(t1) == Below(t.kids[..i]) + Without(InOrder(t.kids[i]), k) + Below(t.kids[i + 1..])
    requires InOrder(t) == Below(t.kids[..i]) + InOrder(t.kids[i]) + Below(t.kids[i + 1..])
    ensures var n := |Below(t.kids[..i])| + k;
            0 <= n < |InOrder(t)| && InOrder(t1) == Without(InOrder(t), n) && Sorted(InOrder(t1))
  {
    hide Below, InOrder, Sorted;
    WithoutMiddle(Below(t.kids[..i]), InOrder(t.kids[i]), Below(t.kids[i + 1..]), k);
    SortedWithout(InOrder(t), |Below(t.kids[..i])| + k);
  }

  /** A page of a tree within its size, and the path to an entry below it. */
  ghost predicate Deletable(t: Tree, d: nat, path: seq<int>, psize: int) {
    && Weak(t, d) && (d > 0 ==> 2 <= |t.kids|) && PathOk(t, path) && Sorted(InOrder(t)) && SameLengths(t)
    && MIN_PSIZE <= psize && AllSized(t, psize - PAGEHDRSZ)
  }

  /** Exactly the entry at the path is gone, and the pages are valid, of the same depth and
      within their size. */
  ghost predicate Deleted(t: Tree, d: nat, path: seq<int>, psize: int) {
    && PAGEHDRSZ < psize && PathOk(t, path) && SameLengths(t) && 0 <= Rank(t, path) < |InOrder(t)|
    && OutcomeOk(DeleteAt(t, path, psize), d, Without(InOrder(t), Rank(t, path)), psize - PAGEHDRSZ)
  }

  lemma {:induction false} DeleteAtOk(t: Tree, d: nat, path: seq<int>, psize: int)
    requires Deletable(t, d, path, psize)
    ensures Deleted(t, d, path, psize)
    decreases d
  {
    hide *;
    if d > 0 {
      DeletableKid(t, d, path, psize);
      DeleteAtOk(t.kids[path[0]], d - 1, path[1..], psize);
      DeletedUp(t, d, path, psize);
    } else {
      DeleteInLeaf(t, path, psize);
    }
  }

  lemma DeletableKid(t: Tree, d: nat, path: seq<int>, psize: int)
    requires Deletable(t, d, path, psize) && d > 0
    ensures t.BranchPage? && path != [] && 0 <= path[0] < |t.kids|
    ensures Deletable(t.kids[path[0]], d - 1, path[1..], psize)
  {
    hide Used, InOrder, SepsOk, Sorted;
    var kid := t.kids[path[0]];
    assert Strong(kid, d - 1);
    KidSorted(t, path[0]);
    assert PathOk(kid, path[1..]);
    assert SameLengths(kid);
    assert KidsSized(t, psize - PAGEHDRSZ);
    assert AllSized(kid, psize - PAGEHDRSZ);
    assert Weak(kid, d - 1);
    assert d > 1 ==> 2 <= |kid.kids|;
  }

  lemma DeletedUp(t: Tree, d: nat, path: seq<int>, psize: int)
    requires Deletable(t, d, path, psize) && d > 0 && t.BranchPage? && path != [] && 0 <= path[0] < |t.kids|
    requires Deleted(t.kids[path[0]], d - 1, path[1..], psize)
    ensures Deleted(t, d, path, psize)
  {
    hide OutcomeOk, Climb, Below, Sorted, InOrder, AllSized, Weak;
    var i, rest := path[0], path[1..];
    ClimbOk(t, d, i, DeleteAt(t.kids[i], rest, psize), Rank(t.kids[i], rest), psize);
  }

  lemma DeleteInLeaf(t: Tree, path: seq<int>, psize: int)
    requires Deletable(t, 0, path, psize)
    ensures Deleted(t, 0, path, psize) && DeleteAt(t, path, psize).Lost?
  {
    hide AllSized;
    LeafLess(t, path[0], psize - PAGEHDRSZ);
  }

  lemma LeafLess(t: Tree, i: int, pmax: int)
    requires t.LeafPage? && AllSized(t, pmax) && 0 <= i < |t.nodes|
    ensures AllSized(LeafPage(Without(t.nodes, i)), pmax)
  {
    hide Sum, ItemSize;
    var a, n, b := t.nodes[..i], t.nodes[i], t.nodes[i + 1..];
    assert t.nodes == a + ([n] + b);
    SizesPlus(a, [n] + b);
    SizesPlus([n], b);
    SizesPlus(a, b);
    NodeOne(n);
    NodesPositive(a + b);
    hide Used;
    var nodes := Without(t.nodes, i);
    forall k | 0 <= k < |nodes| ensures nodes[k] == t.nodes[if k < i then k else k + 1] {}
  }

  lemma KidSorted(t: Tree, i: int)
    requires t.BranchPage? && 0 <= i < |t.kids| && Sorted(InOrder(t))
    ensures Sorted(InOrder(t.kids[i]))
  {
    var a, b := Below(t.kids[..i]), Below(t.kids[i + 1..]);
    SwapBelow(t, i, t.kids[i]);
    hide Below, InOrder, Sorted;
    SortedParts(a + InOrder(t.kids[i]), b);
    SortedParts(a, InOrder(t.kids[i]));
  }

  /** One entry less below child i. */
  lemma DeleteStep(t: Tree, d: nat, i: int, kid: Tree, k: int)
    requires d > 0 && Weak(t, d) && 2 <= |t.kids| && 0 <= i < |t.kids| && Sorted(InOrder(t))
    requires Weak(kid, d - 1) && 0 <= k < |InOrder(t.kids[i])| && InOrder(kid) == Without(InOrder(t.kids[i]), k)
    ensures Wounded(Swap(t, i, kid), d, i) && Sorted(InOrder(Swap(t, i, kid)))
    ensures var n := |Below(t.kids[..i])| + k;
            0 <= n < |InOrder(t)| && InOrder(Swap(t, i, kid)) == Without(InOrder(t), n)
  {
    hide Below, Sorted;
    SwapBelow(t, i, kid);
    SwapSeps(t, i, kid, k);
    assert Wounded(Swap(t, i, kid), d, i);
    hide InOrder, Weak, Wounded;
    WithoutMiddle(Below(t.kids[..i]), InOrder(t.kids[i]), Below(t.kids[i + 1..]), k);
    SortedWithout(InOrder(t), |Below(t.kids[..i])| + k);
  }

  /** A whole tree: no single child below the root. */
  ghost predicate Root(t: Tree, d: nat) {
    Weak(t, d) && (d > 0 ==> 2 <= |t.kids|) && Sorted(InOrder(t))
  }

  /** Deleting from a tree of pages within their size gives such a tree without that entry, of
      uniform depth: one level higher iff the root was cut, and at most one level lower. */
  lemma DeleteOk(t: Tree, d: nat, path: seq<int>, psize: int)
    requires Root(t, d) && PathOk(t, path) && MIN_PSIZE <= psize && AllSized(t, psize - PAGEHDRSZ)
    ensures SameLengths(t) && 0 <= Rank(t, path) < |InOrder(t)|
    ensures var out, res := DeleteAt(t, path, psize), Delete(t, path, psize);
            && (res.Failed? <==> out.Failed?) && (res.Failed? || res.Kept?)
            && (res.Kept? ==>
              InOrder(res.page) == Without(InOrder(t), Rank(t, path)) &&
              AllSized(res.page, psize - PAGEHDRSZ))
            && (out.Cut? ==> Root(res.page, d + 1))
            && (out.Kept? ==> Root(res.page, d))
            && (out.Lost? ==> Root(res.page, d) || (d > 0 && Root(res.page, d - 1)))
  {
    hide Sorted, Rank, DeleteAt, Below, AllSized, OutcomeOk, Weak, Whole, InOrder;
    Lengths(t, d);
    DeleteAtOk(t, d, path, psize);
    SortedWithout(InOrder(t), Rank(t, path));
    WholeOk(DeleteAt(t, path, psize), d, Without(InOrder(t), Rank(t, path)), psize - PAGEHDRSZ);
  }

  lemma WholeOk(out: Outcome, d: nat, all: seq<Node>, pmax: int)
    requires OutcomeOk(out, d, all, pmax) && Sorted(all) && MIN_PSIZE - PAGEHDRSZ <= pmax
    ensures var res := Whole(out);
            && (res.Failed? <==> out.Failed?) && (res.Failed? || res.Kept?)
            && (res.Kept? ==> InOrder(res.page) == all && AllSized(res.page, pmax))
            && (out.Cut? ==> Root(res.page, d + 1))
            && (out.Kept? ==> Root(res.page, d))
            && (out.Lost? ==> Root(res.page, d) || (d > 0 && Root(res.page, d - 1)))
  {
    hide Sorted, AllSized, InOrder;
    match out
    case Failed =>
    case Kept(page) => StrongRoot(page, d);
    case Lost(page) =>
      CollapseOk(page, d);
      CollapseSized(page, pmax);
    case Cut(l, sep, r) => NewRoot(l, sep, r, d, pmax);
  }

  lemma StrongRoot(t: Tree, d: nat)
    requires Strong(t, d) && d > 0
    ensures Weak(t, d) && t.BranchPage? && 2 <= |t.kids|
  {
  }

  lemma NewRoot(l: Tree, sep: Bytes, r: Tree, d: nat, pmax: int)
    requires Strong(l, d) && Strong(r, d) && Between(l, sep, r) && PairSized(Two(l, sep, r), pmax)
    requires MIN_PSIZE - PAGEHDRSZ <= pmax
    ensures var t := BranchPage([[], sep], [l, r]);
            Weak(t, d + 1) && InOrder(t) == InOrder(l) + InOrder(r) && AllSized(t, pmax)
  {
    var t := BranchPage([[], sep], [l, r]);
    InOrderBelow(t);
    BelowTwo(l, r);
    hide InOrder, Below;
    FewSeps(t.seps);
    SepsPositive(t.seps);
  }

  lemma CollapseSized(t: Tree, pmax: int)
    requires AllSized(t, pmax)
    ensures AllSized(Collapse(t), pmax)
  {
  }

  // ---- when a page is cut ----

  /** What the page gets that it did not have: a separator for a child that was cut, or the
      difference between two separators after a move. Nothing after a merge. */
  function Growth(t: Tree, i: int, out: Outcome, pmax: int): int
    requires 0 < pmax && t.BranchPage? && |t.seps| == |t.kids| && 0 <= i < |t.kids|
  {
    match out
    case Cut(_, sep, _) => SepSize(sep)
    case Lost(kid) =>
      var t', j := Swap(t, i, kid), if i == 0 then 0 else i - 1;
      if !Mendable(t', i) || !Poor(kid, pmax) then 0
      else
        var pair := Mend(t'.kids[j], t'.kids[j + 1], i != 0, pmax);
        if pair.One? then 0 else SepSize(pair.sep) - SepSize(t.seps[j + 1])
    case _ => 0
  }

  /** A page is cut, or fails to be, exactly when it has no room for what it gets. */
  lemma CutIff(t: Tree, d: nat, i: int, out: Outcome, k: int, psize: int)
    requires d > 0 && Weak(t, d) && 2 <= |t.kids| && 0 <= i < |t.kids| && Sorted(InOrder(t)) && MIN_PSIZE <= psize
    requires AllSized(t, psize - PAGEHDRSZ) && 0 <= k < |InOrder(t.kids[i])| && !out.Failed?
    requires OutcomeOk(out, d - 1, Without(InOrder(t.kids[i]), k), psize - PAGEHDRSZ)
    ensures var up, pmax := Climb(t, i, out, psize), psize - PAGEHDRSZ;
            up.Cut? || up.Failed? <==> Growth(t, i, out, pmax) > pmax - Used(t)
  {
    var pmax := psize - PAGEHDRSZ;
    hide Sorted, InOrder, Without, SepsOk, Used, SepSize, Poor;
    match out
    case Kept(_) =>
    case Cut(l, sep, r) =>
      AddedSwells(t, i, l, sep, r, pmax);
      AddKidUsed(t, i, l, sep, r);
      SettleIff(AddKid(t, i, l, sep, r), i + 1, psize);
    case Lost(kid) =>
      hide Settle;
      var t' := Swap(t, i, kid);
      DeleteStep(t, d, i, kid, k);
      SwapSized(t, i, kid, pmax);
      SameUse(t, t');
      WoundedMendable(t', d, i);
      RepairIff(t', d, i, psize);
  }

  lemma RepairIff(t: Tree, d: nat, i: int, psize: int)
    requires Wounded(t, d, i) && Sorted(InOrder(t)) && AllSized(t, psize - PAGEHDRSZ) && MIN_PSIZE <= psize
    requires Mendable(t, i)
    ensures var up, pmax := Repair(t, i, psize), psize - PAGEHDRSZ;
            up.Cut? || up.Failed? <==> Growth(t, i, Lost(t.kids[i]), pmax) > pmax - Used(t)
  {
    hide Poor, Sorted, InOrder, Mend, Settle, SepsOk, SepSize, Used, Strong, Weak, PairSized, Low, KidsSized, Replace,
      Swap;
    var pmax, j := psize - PAGEHDRSZ, if i == 0 then 0 else i - 1;
    SwapBack(t, i);
    if Poor(t.kids[i], pmax) {
      MendedOk(t, d, i, pmax);
      var pair := Mend(t.kids[j], t.kids[j + 1], i != 0, pmax);
      if pair.Two? { MoveIff(t, j, pair, psize); }
    }
  }

  lemma SwapBack(t: Tree, i: int)
    requires t.BranchPage? && 0 <= i < |t.kids|
    ensures Swap(t, i, t.kids[i]) == t
  {
  }

  lemma MoveIff(t: Tree, j: int, pair: Pair, psize: int)
    requires t.BranchPage? && AllSized(t, psize - PAGEHDRSZ) && 0 <= j && j + 1 < |t.kids| && MIN_PSIZE <= psize
    requires |t.seps| == |t.kids| && pair.Two? && PairSized(pair, psize - PAGEHDRSZ)
    ensures var up, pmax := Settle(Replace(t, j, pair), j + 1, psize), psize - PAGEHDRSZ;
            up.Cut? || up.Failed? <==> SepSize(pair.sep) - SepSize(t.seps[j + 1]) > pmax - Used(t)
  {
    hide SepSize, Used, Settle;
    MovedSwells(t, j, pair.l, pair.sep, pair.r, psize - PAGEHDRSZ);
    RekeyFits(t, j, pair.l, pair.sep, pair.r, psize - PAGEHDRSZ);
    SettleIff(Replace(t, j, pair), j + 1, psize);
  }

  /** Every branch page on the way has room for a separator of any length in place of another. */
  ghost predicate Roomy(t: Tree, path: seq<int>, pmax: int)
    requires PathOk(t, path)
    decreases t
  {
    t.BranchPage? ==> Used(t) + MAX_SEP - MIN_ITEM <= pmax && Roomy(t.kids[path[0]], path[1..], pmax)
  }

  ghost predicate Uncut(t: Tree, path: seq<int>, psize: int) {
    && PAGEHDRSZ < psize && PathOk(t, path) && SameLengths(t)
    && (DeleteAt(t, path, psize).Kept? || DeleteAt(t, path, psize).Lost?)
  }

  lemma {:induction false} RoomyUncut(t: Tree, d: nat, path: seq<int>, psize: int)
    requires Deletable(t, d, path, psize) && PathOk(t, path) && Roomy(t, path, psize - PAGEHDRSZ)
    ensures Uncut(t, path, psize)
    decreases d
  {
    hide *;
    if d > 0 {
      DeletableKid(t, d, path, psize);
      RoomyKid(t, path, psize - PAGEHDRSZ);
      DeleteAtOk(t.kids[path[0]], d - 1, path[1..], psize);
      RoomyUncut(t.kids[path[0]], d - 1, path[1..], psize);
      UncutUp(t, d, path, psize);
    } else {
      DeleteInLeaf(t, path, psize);
      LostUncut(t, path, psize);
    }
  }

  lemma LostUncut(t: Tree, path: seq<int>, psize: int)
    requires Deleted(t, 0, path, psize) && DeleteAt(t, path, psize).Lost?
    ensures Uncut(t, path, psize)
  {
  }

  lemma UncutUp(t: Tree, d: nat, path: seq<int>, psize: int)
    requires Deletable(t, d, path, psize) && d > 0 && t.BranchPage? && path != [] && 0 <= path[0] < |t.kids|
    requires Deleted(t.kids[path[0]], d - 1, path[1..], psize) && Uncut(t.kids[path[0]], path[1..], psize)
    requires Used(t) + MAX_SEP - MIN_ITEM <= psize - PAGEHDRSZ
    ensures Uncut(t, path, psize)
  {
    hide OutcomeOk, Climb, Below, Sorted, InOrder, AllSized, Weak, Used;
    var i, rest := path[0], path[1..];
    RoomyStep(t, d, i, DeleteAt(t.kids[i], rest, psize), Rank(t.kids[i], rest), psize);
  }

  lemma RoomyStep(t: Tree, d: nat, i: int, out: Outcome, k: int, psize: int)
    requires d > 0 && Weak(t, d) && 2 <= |t.kids| && 0 <= i < |t.kids| && Sorted(InOrder(t)) && MIN_PSIZE <= psize
    requires AllSized(t, psize - PAGEHDRSZ) && 0 <= k < |InOrder(t.kids[i])| && (out.Kept? || out.Lost?)
    requires OutcomeOk(out, d - 1, Without(InOrder(t.kids[i]), k), psize - PAGEHDRSZ)
    requires Used(t) + MAX_SEP - MIN_ITEM <= psize - PAGEHDRSZ
    ensures Climb(t, i, out, psize).Kept? || Climb(t, i, out, psize).Lost?
  {
    hide *;
    CutIff(t, d, i, out, k, psize);
    SmallGrowth(t, d, i, out, k, psize);
  }

  lemma RoomyKid(t: Tree, path: seq<int>, pmax: int)
    requires t.BranchPage? && PathOk(t, path) && Roomy(t, path, pmax)
    ensures path != [] && 0 <= path[0] < |t.kids| && PathOk(t.kids[path[0]], path[1..])
    ensures Used(t) + MAX_SEP - MIN_ITEM <= pmax && Roomy(t.kids[path[0]], path[1..], pmax)
  {
  }

  lemma SmallGrowth(t: Tree, d: nat, i: int, out: Outcome, k: int, psize: int)
    requires d > 0 && Weak(t, d) && 2 <= |t.kids| && 0 <= i < |t.kids| && Sorted(InOrder(t)) && MIN_PSIZE <= psize
    requires AllSized(t, psize - PAGEHDRSZ) && 0 <= k < |InOrder(t.kids[i])| && (out.Kept? || out.Lost?)
    requires OutcomeOk(out, d - 1, Without(InOrder(t.kids[i]), k), psize - PAGEHDRSZ)
    ensures Growth(t, i, out, psize - PAGEHDRSZ) <= MAX_SEP - MIN_ITEM
  {
    var pmax, j := psize - PAGEHDRSZ, if i == 0 then 0 else i - 1;
    hide Sorted, InOrder, Without, SepsOk, Used;
    if out.Lost? {
      var t' := Swap(t, i, out.page);
      DeleteStep(t, d, i, out.page, k);
      SwapSized(t, i, out.page, pmax);
      WoundedMendable(t', d, i);
      if Poor(out.page, pmax) {
        KidsSorted(t', j);
        hide Poor, Mend;
        MendOk(t'.kids[j], t'.kids[j + 1], d - 1, i != 0, pmax);
        MendSized(t'.kids[j], t'.kids[j + 1], i != 0, pmax);
      }
    }
  }

  /** Then nothing is cut, nothing fails, and the tree gets no higher. */
  lemma RoomyDelete(t: Tree, d: nat, path: seq<int>, psize: int)
    requires Root(t, d) && PathOk(t, path) && MIN_PSIZE <= psize && AllSized(t, psize - PAGEHDRSZ)
    requires Roomy(t, path, psize - PAGEHDRSZ)
    ensures SameLengths(t) && Delete(t, path, psize).Kept?
    ensures var t' := Delete(t, path, psize).page; Root(t', d) || (d > 0 && Root(t', d - 1))
  {
    hide DeleteAt, Roomy, AllSized, Sorted;
    DeleteOk(t, d, path, psize);
    RoomyUncut(t, d, path, psize);
  }

  lemma CollapseOk(t: Tree, d: nat)
    requires Weak(t, d)
    ensures InOrder(Collapse(t)) == InOrder(t)
    ensures var t' := Collapse(t);
            if d > 0 && |t.kids| == 1 then Weak(t', d - 1) && NumKeys(t') >= (if d == 1 then 1 else 2) else t' == t
  {
    if d > 0 && |t.kids| == 1 {
      InOrderBelow(t);
      BelowOne(t.kids[0]);
      assert t.kids == [t.kids[0]];
    }
  }
}
