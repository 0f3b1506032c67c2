/** A branch page that gets a child or a longer separator, and is cut in two when it is too full
    for that. */
module TreeSplit {
  import opened ByteOrder
  import opened SlottedPage
  import opened PageNodes
  import opened BTree
  import opened PageSplit
  import opened SplitPoint
  import opened Rebalance
  import opened TreeSizes

  /** What a change below leaves of a page: a page with nothing to do above it, a page that lost
      a node, two pages with the separator of the right one, or an error. */
  datatype Outcome = Kept(page: Tree) | Lost(page: Tree) | Cut(l: Tree, sep: Bytes, r: Tree) | Failed

  /** No entry is lost, and the pages are valid and within their size. */
  ghost predicate OutcomeOk(out: Outcome, d: nat, all: seq<Node>, pmax: int) {
    match out
    case Kept(page) => d > 0 && Strong(page, d) && InOrder(page) == all && AllSized(page, pmax)
    case Lost(page) => Weak(page, d) && InOrder(page) == all && AllSized(page, pmax)
    case Cut(l, sep, r) => d > 0 && PairOk(Two(l, sep, r), d, all) && PairSized(Two(l, sep, r), pmax)
    case Failed => true
  }

  /** Child i became two children. */
  function AddKid(t: Tree, i: int, l: Tree, sep: Bytes, r: Tree): (t': Tree)
    requires t.BranchPage? && |t.seps| == |t.kids| && 0 <= i < |t.kids|
    ensures t'.BranchPage? && |t'.kids| == |t'.seps| == |t.kids| + 1
  {
    BranchPage(t.seps[..i + 1] + [sep] + t.seps[i + 1..], t.kids[..i] + [l, r] + t.kids[i + 1..])
  }

  /** The page t with a new separator at place k: mdb_page_split when it is too full. Two
      separators fit in any page. */
  function Settle(t: Tree, k: int, psize: int): Outcome
    requires t.BranchPage? && |t.seps| == |t.kids| && 0 <= k < |t.seps|
  {
    var sizes, pmax := SepSizes(t.seps), psize - PAGEHDRSZ;
    var split := SplitIndex(sizes, k, false, pmax, psize / 128);
    if Used(t) <= pmax || !(0 < split < |t.kids|) then Kept(t)
    else if Used(CutLeft(t, split)) <= pmax && Used(CutRight(t, split)) <= pmax then
      Cut(CutLeft(t, split), t.seps[split], CutRight(t, split))
    else Failed
  }

  // ---- a child more ----

  lemma AddKidBelow(t: Tree, i: int, l: Tree, sep: Bytes, r: Tree)
    requires t.BranchPage? && |t.seps| == |t.kids| && 0 <= i < |t.kids|
    requires InOrder(l) + InOrder(r) == InOrder(t.kids[i])
    ensures InOrder(AddKid(t, i, l, sep, r)) == InOrder(t)
  {
    hide InOrder, Below;
    var t' := AddKid(t, i, l, sep, r);
    InOrderBelow(t);
    InOrderBelow(t');
    var a, b := t.kids[..i], t.kids[i + 1..];
    assert t.kids == a + ([t.kids[i]] + b);
    assert t'.kids == a + ([l, r] + b);
    BelowPlus(a, [t.kids[i]] + b);
    BelowPlus([t.kids[i]], b);
    BelowPlus(a, [l, r] + b);
    BelowPlus([l, r], b);
    BelowTwo(l, r);
    BelowOne(t.kids[i]);
  }

  /** The separators around a page bound both of its parts, and the one between them. */
  lemma PartBounds(t: Tree, d: nat, i: int, l: Tree, sep: Bytes, r: Tree)
    requires t.BranchPage? && SepsOk(t) && 0 <= i < |t.kids| && PairOk(Two(l, sep, r), d, InOrder(t.kids[i]))
    ensures 0 < i ==> AllGe(InOrder(l), t.seps[i]) && Lt(t.seps[i], sep)
    ensures i + 1 < |t.kids| ==> AllLt(InOrder(r), t.seps[i + 1]) && Lt(sep, t.seps[i + 1])
  {
    LowFirst(l, d);
    LowFirst(r, d);
    hide Strong, InOrder;
    if 0 < i {
      assert Between(t.kids[i - 1], t.seps[i], t.kids[i]);
      BoundsMove(InOrder(t.kids[i]), [], InOrder(l), InOrder(r), t.seps[i]);
      Transitive(t.seps[i], InOrder(l)[0].key, sep);
    }
    if i + 1 < |t.kids| {
      assert Between(t.kids[i], t.seps[i + 1], t.kids[i + 1]);
      BoundsMove(InOrder(t.kids[i]), [], InOrder(l), InOrder(r), t.seps[i + 1]);
      Transitive(sep, InOrder(r)[0].key, t.seps[i + 1]);
    }
  }

  lemma AddKidBetween(t: Tree, d: nat, i: int, l: Tree, sep: Bytes, r: Tree, j: int, k: int)
    requires t.BranchPage? && SepsOk(t) && 0 <= i < |t.kids| && PairOk(Two(l, sep, r), d, InOrder(t.kids[i]))
    requires 0 <= j && k == j + 1 && k <= |t.kids|
    ensures var t' := AddKid(t, i, l, sep, r); Between(t'.kids[j], t'.seps[k], t'.kids[k])
  {
    PartBounds(t, d, i, l, sep, r);
    hide Strong, InOrder, AllLt, AllGe;
    if k < i {
      assert Between(t.kids[j], t.seps[k], t.kids[k]);
    } else if k == i {
      assert Between(t.kids[j], t.seps[k], t.kids[k]);
    } else if k > i + 1 {
      var j', k' := j - 1, k - 1;
      assert Between(t.kids[j'], t.seps[k'], t.kids[k']);
    }
  }

  lemma AddKidSeps(t: Tree, d: nat, i: int, l: Tree, sep: Bytes, r: Tree)
    requires t.BranchPage? && SepsOk(t) && 0 <= i < |t.kids| && PairOk(Two(l, sep, r), d, InOrder(t.kids[i]))
    ensures SepsOk(AddKid(t, i, l, sep, r))
  {
    var t' := AddKid(t, i, l, sep, r);
    PartBounds(t, d, i, l, sep, r);
    hide PairOk, Between, InOrder, AllLt, AllGe;
    forall j, k | 0 <= j && k == j + 1 && k < |t'.kids| ensures Between(t'.kids[j], t'.seps[k], t'.kids[k]) {
      AddKidBetween(t, d, i, l, sep, r, j, k);
    }
    forall j, k | 1 <= j && k == j + 1 && k < |t'.seps| ensures Lt(t'.seps[j], t'.seps[k]) {
      var j', k' := if j <= i then j else j - 1, if k <= i then k else k - 1;
      if j' != k' { assert Lt(t.seps[j'], t.seps[k']); }
    }
  }

  /** The page stays valid, with the same entries. */
  lemma AddKidOk(t: Tree, d: nat, i: int, l: Tree, sep: Bytes, r: Tree)
    requires d > 0 && t.BranchPage? && SepsOk(t) && 0 <= i < |t.kids|
    requires forall k :: 0 <= k < |t.kids| && k != i ==> Strong(t.kids[k], d - 1)
    requires PairOk(Two(l, sep, r), d - 1, InOrder(t.kids[i]))
    ensures Weak(AddKid(t, i, l, sep, r), d) && InOrder(AddKid(t, i, l, sep, r)) == InOrder(t)
  {
    AddKidBelow(t, i, l, sep, r);
    AddKidSeps(t, d - 1, i, l, sep, r);
    hide InOrder, SepsOk, Between;
  }

  lemma AddKidUsed(t: Tree, i: int, l: Tree, sep: Bytes, r: Tree)
    requires t.BranchPage? && |t.seps| == |t.kids| && 0 <= i < |t.kids|
    ensures Used(AddKid(t, i, l, sep, r)) == Used(t) + SepSize(sep)
  {
    hide Sum, SepSize;
    var a, b := t.seps[..i + 1], t.seps[i + 1..];
    SepOne(sep);
    assert t.seps == a + b && AddKid(t, i, l, sep, r).seps == a + ([sep] + b);
    SepsPlus(a, b);
    SepsPlus(a, [sep] + b);
    SepsPlus([sep], b);
  }

  // ---- cutting ----

  /** A page whose separator k may be too much for it. */
  ghost predicate Swollen(t: Tree, k: int, pmax: int) {
    && t.BranchPage? && |t.seps| == |t.kids| && 0 < k < |t.kids| && KidsSized(t, pmax) && t.seps[0] == []
    && (forall i :: 0 <= i < |t.seps| ==> |t.seps[i]| <= MAXKEYSIZE)
    && Used(t) - SepSize(t.seps[k]) <= pmax
  }

  lemma SwollenFull(t: Tree, k: int, pmax: int)
    requires Swollen(t, k, pmax) && pmax < Used(t) && MIN_PSIZE - PAGEHDRSZ <= pmax
    ensures Full(SepSizes(t.seps), k, pmax) && SepSizes(t.seps)[0] == MIN_ITEM
    ensures forall i :: 0 <= i < |t.seps| ==> SepSizes(t.seps)[i] <= MAX_SEP
  {
    hide Sum;
    var s := SepSizes(t.seps);
    if |s| < 3 { AtMostTwo(s, pmax); }
  }

  /** A cut that fits is one that leaves both pages within their size. */
  lemma CutFits(t: Tree, k: int, split: int, pmax: int)
    requires Swollen(t, k, pmax) && 0 < split < |t.kids|
    ensures BothFit(SepSizes(t.seps), split, false, pmax) <==>
            Used(CutLeft(t, split)) <= pmax && Used(CutRight(t, split)) <= pmax
  {
    hide Used, Sum, KidsSized;
    CutUsed(t, split);
    EmptySep();
  }

  /** The page is left alone iff it has room, and the cut fails iff the split point is not
      looked for and the middle has no room. */
  lemma SettleIff(t: Tree, k: int, psize: int)
    requires MIN_PSIZE <= psize && Swollen(t, k, psize - PAGEHDRSZ)
    ensures var pmax, sizes := psize - PAGEHDRSZ, SepSizes(t.seps);
            && !Settle(t, k, psize).Lost?
            && (Settle(t, k, psize).Kept? <==> Used(t) <= pmax)
            && (Settle(t, k, psize).Failed? <==>
                  && pmax < Used(t) && psize / 128 <= |sizes| - 1 && sizes[k] <= pmax / 16 && k < |sizes| - 1
                  && !MiddleRoom(sizes, k, false, pmax))
  {
    hide Used, Sum, Full, MiddleRoom, BothFit, SplitIndex;
    var pmax, sizes := psize - PAGEHDRSZ, SepSizes(t.seps);
    if pmax < Used(t) {
      SwollenFull(t, k, pmax);
      SplitFits(sizes, k, false, pmax, psize / 128);
      SplitFitsIff(sizes, k, false, pmax, psize / 128);
      CutFits(t, k, SplitIndex(sizes, k, false, pmax, psize / 128), pmax);
    }
  }

  /** A page cut in two: two valid pages within their size, with the entries of the one. */
  lemma SettleOk(t: Tree, d: nat, k: int, psize: int)
    requires d > 0 && Strong(t, d) && Sorted(InOrder(t)) && MIN_PSIZE <= psize && Swollen(t, k, psize - PAGEHDRSZ)
    ensures OutcomeOk(Settle(t, k, psize), d, InOrder(t), psize - PAGEHDRSZ)
  {
    hide Sum, Full, SplitIndex, InOrder, Sorted, SepsOk, SepSize;
    var pmax, sizes := psize - PAGEHDRSZ, SepSizes(t.seps);
    var split := SplitIndex(sizes, k, false, pmax, psize / 128);
    SepsPositive(t.seps);
    SettleIff(t, k, psize);
    if pmax < Used(t) {
      SwollenFull(t, k, pmax);
      TwoEach(sizes, k, pmax, psize / 128);
      CutSplits(t, d, split);
      CutSized(t, split, pmax);
    }
  }
}
