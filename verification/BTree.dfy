/** B-trees as values: what a reader sees below a page. */
module BTree {
  import opened ByteOrder
  import opened PageNodes

  /** A leaf page holds entries; a branch page holds child pages, each but the first with a
      separator key. */
  datatype Pages<Entry> =
    | LeafPage(nodes: seq<Entry>)
    | BranchPage(seps: seq<Bytes>, kids: seq<Pages<Entry>>)

  type Tree = Pages<Node>

  function NumKeys(t: Tree): nat { if t.LeafPage? then |t.nodes| else |t.kids| }

  function Concat<T>(ss: seq<seq<T>>): seq<T> {
    if ss == [] then [] else ss[0] + Concat(ss[1..])
  }

  /** All entries below a page, in order. */
  function InOrder(t: Tree): seq<Node> {
    match t
    case LeafPage(nodes) => nodes
    case BranchPage(_, kids) => Concat(seq(|kids|, i requires 0 <= i < |kids| => InOrder(kids[i])))
  }

  function Contents(kids: seq<Tree>): (r: seq<seq<Node>>)
    ensures |r| == |kids| && forall i :: 0 <= i < |r| ==> r[i] == InOrder(kids[i])
  {
    seq(|kids|, i requires 0 <= i < |kids| => InOrder(kids[i]))
  }

  /** All entries below several pages. */
  function Below(kids: seq<Tree>): seq<Node> { Concat(Contents(kids)) }

  lemma InOrderBelow(t: Tree)
    requires t.BranchPage?
    ensures InOrder(t) == Below(t.kids)
  {
    assert seq(|t.kids|, i requires 0 <= i < |t.kids| => InOrder(t.kids[i])) == Contents(t.kids);
  }

  lemma {:induction false} ConcatPlus<T>(a: seq<seq<T>>, b: seq<seq<T>>)
    ensures Concat(a + b) == Concat(a) + Concat(b)
  {
    if a == [] {
      assert a + b == b;
    } else {
      ConcatPlus(a[1..], b);
      assert (a + b)[1..] == a[1..] + b;
    }
  }

  lemma BelowPlus(a: seq<Tree>, b: seq<Tree>)
    ensures Below(a + b) == Below(a) + Below(b)
  {
    ConcatPlus(Contents(a), Contents(b));
    assert Contents(a + b) == Contents(a) + Contents(b);
  }

  lemma BelowOne(t: Tree)
    ensures Below([t]) == InOrder(t)
  {
    assert Contents([t]) == [InOrder(t)];
    assert Concat([InOrder(t)][1..]) == [];
  }

  lemma BelowTwo(l: Tree, r: Tree)
    ensures Below([l, r]) == InOrder(l) + InOrder(r)
  {
    BelowPlus([l], [r]);
    BelowOne(l);
    BelowOne(r);
    assert [l] + [r] == [l, r];
  }

  // ---- order ----

  ghost predicate Sorted(s: seq<Node>) {
    forall i, j :: 0 <= i < j < |s| ==> Lt(s[i].key, s[j].key)
  }

  ghost predicate AllLt(s: seq<Node>, k: Bytes) { forall i :: 0 <= i < |s| ==> Lt(s[i].key, k) }
  ghost predicate AllGe(s: seq<Node>, k: Bytes) { forall i :: 0 <= i < |s| ==> Le(k, s[i].key) }

  /** A separator stands between its left and right neighbours. */
  ghost predicate Between(l: Tree, sep: Bytes, r: Tree) {
    AllLt(InOrder(l), sep) && AllGe(InOrder(r), sep)
  }

  ghost predicate SepsOk(t: Tree) {
    t.BranchPage? ==>
      && |t.seps| == |t.kids| && (0 < |t.seps| ==> t.seps[0] == [])
      && (forall i, j :: 0 <= i && j == i + 1 && j < |t.kids| ==> Between(t.kids[i], t.seps[j], t.kids[j]))
      && (forall i, j :: 1 <= i && j == i + 1 && j < |t.seps| ==> Lt(t.seps[i], t.seps[j]))
  }

  /** A page of a valid tree, d levels above the leaves; every page below a root holds at
      least one entry, or two children. */
  ghost predicate Strong(t: Tree, d: nat)
    decreases d
  {
    && Weak(t, d)
    && NumKeys(t) >= if d == 0 then 1 else 2
  }

  /** The same, but the page itself may hold too few: a root, or a page after a deletion. */
  ghost predicate Weak(t: Tree, d: nat)
    decreases d, 0
  {
    if d == 0 then t.LeafPage?
    else t.BranchPage? && 1 <= |t.kids| && SepsOk(t) && forall i :: 0 <= i < |t.kids| ==> Strong(t.kids[i], d - 1)
  }

  /** The lowest key below a page. */
  function Low(t: Tree): Bytes {
    if t.LeafPage? then (if t.nodes == [] then [] else t.nodes[0].key)
    else if t.kids == [] then [] else Low(t.kids[0])
  }

  lemma {:induction false} LowFirst(t: Tree, d: nat)
    requires Strong(t, d)
    ensures InOrder(t) != [] && Low(t) == InOrder(t)[0].key
    decreases d
  {
    if d > 0 {
      LowFirst(t.kids[0], d - 1);
      InOrderBelow(t);
      assert Contents(t.kids)[0] == InOrder(t.kids[0]);
    }
  }
}
