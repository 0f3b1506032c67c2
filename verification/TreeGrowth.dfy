/** A deletion that makes the tree higher. */
module TreeGrowth {
  import opened ByteOrder
  import opened SlottedPage
  import opened PageNodes
  import opened BTree
  import opened PageSplit
  import opened SplitPoint
  import opened Rebalance
  import opened TreeSizes
  import opened TreeSplit
  import opened TreeDelete

  const PSIZE := 1076

  /** A key of n bytes that starts with x. */
  function LongKey(x: Byte, n: nat): (k: Bytes)
    ensures |k| == n + 1 && k[0] == x
  {
    [x] + seq(n, _ => 0)
  }

  function Entry(key: Bytes): Node { Leaf(key, 0, 0, []) }

  /** Four leaves; the root's separators fill it to the last byte. */
  function FullRoot(): Tree {
    var k2, k4, k5 := LongKey(2, 510), LongKey(4, 510), LongKey(5, 505);
    BranchPage([[], [3], k4, k5],
               [LeafPage([Entry([1]), Entry(k2)]), LeafPage([Entry([3])]), LeafPage([Entry(k4)]),
                 LeafPage([Entry(k5)])])
  }

  lemma FirstByte(a: Bytes, b: Bytes)
    requires a != [] && b != [] && a[0] < b[0]
    ensures Lt(a, b) && Le(a, b)
  {
  }

  lemma RootValid()
    ensures Root(FullRoot(), 1)
  {
    var t := FullRoot();
    var k2, k4, k5 := LongKey(2, 510), LongKey(4, 510), LongKey(5, 505);
    FirstByte(k2, [3]);
    FirstByte([1], [3]);
    FirstByte([3], k4);
    FirstByte(k4, k5);
    Equal([3], [3]);
    Equal(k4, k4);
    Equal(k5, k5);
    hide LongKey, Lt, Le;
    assert Between(t.kids[0], t.seps[1], t.kids[1]);
    assert Between(t.kids[1], t.seps[2], t.kids[2]);
    assert Between(t.kids[2], t.seps[3], t.kids[3]);
    assert forall i :: 0 <= i < |t.kids| ==> Strong(t.kids[i], 0);
    RootSorted();
  }

  lemma RootSorted()
    ensures Sorted(InOrder(FullRoot()))
  {
    var t := FullRoot();
    var k2, k4, k5 := LongKey(2, 510), LongKey(4, 510), LongKey(5, 505);
    var s := [Entry([1]), Entry(k2), Entry([3]), Entry(k4), Entry(k5)];
    var a, b, c, e := t.kids[0], t.kids[1], t.kids[2], t.kids[3];
    InOrderBelow(t);
    assert t.kids == [a, b] + [c, e];
    BelowPlus([a, b], [c, e]);
    BelowTwo(a, b);
    BelowTwo(c, e);
    assert InOrder(t) == s;
    forall i, j | 0 <= i < j < |s| ensures Lt(s[i].key, s[j].key) {
      FirstByte(s[i].key, s[j].key);
    }
  }

  lemma Two(n: Node, m: Node)
    ensures Sum(Sizes([n, m])) == ItemSize(n) + ItemSize(m)
  {
    NodeOne(n);
    NodeOne(m);
    assert [n] + [m] == [n, m];
    SizesPlus([n], [m]);
  }

  lemma Four(a: Bytes, b: Bytes, c: Bytes, e: Bytes)
    ensures Sum(SepSizes([a, b, c, e])) == SepSize(a) + SepSize(b) + SepSize(c) + SepSize(e)
  {
    SepOne(a);
    SepOne(b);
    SepOne(c);
    SepOne(e);
    hide Sum, SepSize;
    SepsPlus([a], [b]);
    SepsPlus([c], [e]);
    SepsPlus([a] + [b], [c] + [e]);
    assert [a, b, c, e] == ([a] + [b]) + ([c] + [e]);
  }

  lemma LeafSized(key: Bytes)
    requires |key| <= MAXKEYSIZE
    ensures AllSized(LeafPage([Entry(key)]), PSIZE - PAGEHDRSZ)
  {
    NodeOne(Entry(key));
  }

  lemma FirstSized(a: Bytes, b: Bytes)
    requires |a| == 1 && |b| == MAXKEYSIZE
    ensures AllSized(LeafPage([Entry(a), Entry(b)]), PSIZE - PAGEHDRSZ) && Used(LeafPage([Entry(a), Entry(b)])) == 534
  {
    Two(Entry(a), Entry(b));
  }

  lemma RootSized()
    ensures AllSized(FullRoot(), PSIZE - PAGEHDRSZ) && Used(FullRoot()) == PSIZE - PAGEHDRSZ
    ensures Used(FullRoot().kids[0]) == 534
  {
    hide LongKey;
    var t, pmax := FullRoot(), PSIZE - PAGEHDRSZ;
    var k2, k4, k5 := LongKey(2, 510), LongKey(4, 510), LongKey(5, 505);
    FirstSized([1], k2);
    LeafSized([3]);
    LeafSized(k4);
    LeafSized(k5);
    Four([], [3], k4, k5);
    hide Sum, AllSized;
    assert KidsSized(t, pmax);
    RootItself(t, pmax);
  }

  lemma RootItself(t: Tree, pmax: int)
    requires t.BranchPage? && KidsSized(t, pmax) && |t.seps| == |t.kids| == 4 && t.seps[0] == [] && 0 <= Used(t) <= pmax
    requires forall i :: 0 <= i < |t.seps| ==> |t.seps[i]| <= MAXKEYSIZE
    ensures AllSized(t, pmax)
  {
  }

  /** Every page is within its size. The only entry of the second leaf is deleted; the last one
      of the first leaf takes its place, and its long key does not fit in the root, which is cut. */
  lemma DeleteGrows()
    ensures var t, path := FullRoot(), [1, 0];
            && Root(t, 1) && AllSized(t, PSIZE - PAGEHDRSZ) && PathOk(t, path) && SameLengths(t)
            && DeleteAt(t, path, PSIZE).Cut? && Root(Delete(t, path, PSIZE).page, 2)
  {
    var t, path, pmax := FullRoot(), [1, 0], PSIZE - PAGEHDRSZ;
    RootValid();
    RootSized();
    Lengths(t, 1);
    assert PathOk(t.kids[1], [0]) && path[1..] == [0];
    var out := DeleteAt(t.kids[1], [0], PSIZE);
    EmptyLeaf(t);
    DeleteOk(t, 1, path, PSIZE);
    RootCut(t);
  }

  lemma EmptyLeaf(t: Tree)
    requires t == FullRoot()
    ensures DeleteAt(t.kids[1], [0], PSIZE) == Lost(LeafPage([]))
  {
    hide LongKey;
    var leaf := t.kids[1];
    assert leaf.LeafPage? && leaf.nodes == [Entry([3])];
    assert Without(leaf.nodes, 0) == [];
  }

  lemma RootCut(t: Tree)
    requires t == FullRoot() && Used(t) == PSIZE - PAGEHDRSZ && Used(t.kids[0]) == 534
    ensures Climb(t, 1, Lost(LeafPage([])), PSIZE).Cut?
  {
    var pmax := PSIZE - PAGEHDRSZ;
    var k2, k4, k5 := LongKey(2, 510), LongKey(4, 510), LongKey(5, 505);
    var t' := Swap(t, 1, LeafPage([]));
    assert t'.kids == [t.kids[0], LeafPage([]), t.kids[2], t.kids[3]];
    assert Mendable(t', 1);
    assert Poor(t'.kids[1], pmax) && Rich(t'.kids[0], pmax);
    var pair := Mend(t'.kids[0], t'.kids[1], true, pmax);
    assert pair == FromLeft(t.kids[0], LeafPage([]));
    assert pair.sep == k2;
    var u := Replace(t', 0, pair);
    assert u.seps == [[], k2, k4, k5];
    CutInTheMiddle(u);
  }

  lemma CutInTheMiddle(u: Tree)
    requires u.BranchPage? && |u.seps| == |u.kids| && u.seps == [[], LongKey(2, 510), LongKey(4, 510), LongKey(5, 505)]
    ensures Settle(u, 1, PSIZE).Cut?
  {
    var s, pmax := SepSizes(u.seps), PSIZE - PAGEHDRSZ;
    assert s == [10, 522, 522, 516];
    Four(u.seps[0], u.seps[1], u.seps[2], u.seps[3]);
    SumTo(s);
    assert LeftScan(s, 2, 3, pmax) == 2;
    assert LeftScan(s, 1, 3, pmax) == 2;
    assert LeftScan(s, 0, 3, pmax) == 2;
    assert SplitIndex(s, 1, false, pmax, PSIZE / 128) == 2;
    CutUsed(u, 2);
  }

  lemma SumTo(s: seq<int>)
    requires s == [10, 522, 522, 516]
    ensures Sum(s[..1]) == 10 && Sum(s[..2]) == 532 && Sum(s[2..]) == 1038
  {
    assert Sum(s[..0]) == 0 == Sum(s[4..]);
    SumNext(s, 0);
    SumNext(s, 1);
    SumNext(s, 2);
    SumNext(s, 3);
  }
}
