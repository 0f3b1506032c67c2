/** mdb_env_cwalk: copy a tree in post-order, renumbering its pages. */
module CompactCopy {
  import opened ByteOrder
  import BTree

  const NUM_METAS := 2

  /** What a database holds: leaf entries, some with their data on overflow pages. */
  datatype Item = Plain(key: Bytes, val: Bytes) | Big(key: Bytes, len: int, val: Bytes)
  type Tree = BTree.Pages<Item>

  /** The pages of a file. A page carries its own number; an overflow run is one page and
      its tail. */
  datatype Slot = InLeaf(key: Bytes, val: Bytes) | OnPage(key: Bytes, pgno: int)
  datatype Page =
    | LeafPage(pgno: int, slots: seq<Slot>)
    | BranchPage(pgno: int, seps: seq<Bytes>, kids: seq<int>)
    | OverPage(pgno: int, len: int, val: Bytes)
    | Tail
    | MetaPage(pgno: int)

  /** Page p stands at place p. */
  type File = seq<Page>

  /** A slot of a leaf page stands for an item. */
  predicate SlotOk(m: File, s: Slot, x: Item) {
    match x
    case Plain(key, val) => s == InLeaf(key, val)
    case Big(key, len, val) =>
      s.OnPage? && s.key == key && 0 <= s.pgno < |m| && m[s.pgno] == OverPage(s.pgno, len, val) && 1 <= len
  }

  /** Page p of the file is the root of tree t. */
  ghost predicate Repr(m: File, p: int, t: Tree)
    decreases t
  {
    0 <= p < |m| &&
    match t
    case LeafPage(items) =>
      && m[p].LeafPage? && m[p].pgno == p && |m[p].slots| == |items|
      && forall i :: 0 <= i < |items| ==> SlotOk(m, m[p].slots[i], items[i])
    case BranchPage(seps, kids) =>
      && m[p].BranchPage? && m[p].pgno == p && m[p].seps == seps && |m[p].kids| == |kids| && kids != []
      && forall i :: 0 <= i < |kids| ==> Repr(m, m[p].kids[i], kids[i])
  }

  // ---- the copy, recursively ----

  datatype Emitted = Emitted(pages: seq<Page>, root: int)
  datatype EmittedItems = EmittedItems(pages: seq<Page>, slots: seq<Slot>)
  datatype EmittedKids = EmittedKids(pages: seq<Page>, roots: seq<int>)

  function Tails(n: int): (r: seq<Page>)
    ensures |r| == if n < 0 then 0 else n
  {
    seq(if n < 0 then 0 else n, _ => Tail)
  }

  function EmitItem(x: Item, next: int): EmittedItems {
    match x
    case Plain(key, val) => EmittedItems([], [InLeaf(key, val)])
    case Big(key, len, val) => EmittedItems([OverPage(next, len, val)] + Tails(len - 1), [OnPage(key, next)])
  }

  /** The overflow pages of a leaf come before it, in the order of its items. */
  function EmitItems(items: seq<Item>, next: int): (e: EmittedItems)
    ensures |e.slots| == |items|
  {
    if items == [] then EmittedItems([], [])
    else
      var n := |items| - 1;
      var e := EmitItems(items[..n], next);
      var x := EmitItem(items[n], next + |e.pages|);
      EmittedItems(e.pages + x.pages, e.slots + x.slots)
  }

  /** Children before their page, and every page numbered by its place. */
  function Emit(t: Tree, next: int): (e: Emitted)
    ensures e.pages != [] && e.root == next + |e.pages| - 1
    decreases t, if t.BranchPage? then |t.kids| + 1 else 0
  {
    match t
    case LeafPage(items) =>
      var e := EmitItems(items, next);
      Emitted(e.pages + [LeafPage(next + |e.pages|, e.slots)], next + |e.pages|)
    case BranchPage(seps, kids) =>
      var e := EmitKids(t, 0, next);
      Emitted(e.pages + [BranchPage(next + |e.pages|, seps, e.roots)], next + |e.pages|)
  }

  /** The children of t from place i on. */
  function EmitKids(t: Tree, i: nat, next: int): (e: EmittedKids)
    requires t.BranchPage? && i <= |t.kids|
    ensures |e.roots| == |t.kids| - i
    decreases t, |t.kids| - i
  {
    if i == |t.kids| then EmittedKids([], [])
    else
      var first := Emit(t.kids[i], next);
      var rest := EmitKids(t, i + 1, next + |first.pages|);
      EmittedKids(first.pages + rest.pages, [first.root] + rest.roots)
  }

  /** The file that starts with the meta pages. */
  function Placed(pages: seq<Page>): (m: File)
    ensures |m| == NUM_METAS + |pages|
  {
    [MetaPage(0), MetaPage(1)] + pages
  }

  // ---- the copy holds the same tree ----

  lemma {:induction false} ReprMono(m: File, m': File, p: int, t: Tree)
    requires Repr(m, p, t) && |m| <= |m'| && forall q :: 0 <= q < |m| ==> m'[q] == m[q]
    ensures Repr(m', p, t)
    decreases t
  {
    match t
    case LeafPage(items) =>
      forall i | 0 <= i < |items| ensures SlotOk(m', m'[p].slots[i], items[i]) {
        assert SlotOk(m, m[p].slots[i], items[i]);
      }
    case BranchPage(seps, kids) =>
      forall i | 0 <= i < |kids| ensures Repr(m', m'[p].kids[i], kids[i]) {
        ReprMono(m, m', m[p].kids[i], kids[i]);
      }
  }

  lemma PlacedGrows(a: seq<Page>, b: seq<Page>)
    ensures |Placed(a)| <= |Placed(a + b)| && forall q :: 0 <= q < |Placed(a)| ==> Placed(a + b)[q] == Placed(a)[q]
  {
  }

  /** The roots are those of the trees from place i on. */
  ghost predicate AllRepr(m: File, roots: seq<int>, kids: seq<Tree>, i: int) {
    0 <= i && i + |roots| == |kids| && forall k, j :: 0 <= k < |roots| && j == i + k ==> Repr(m, roots[k], kids[j])
  }

  /** All overflow runs have pages. */
  predicate ItemsOk(items: seq<Item>) {
    forall i :: 0 <= i < |items| ==> items[i].Big? ==> 1 <= items[i].len
  }

  ghost predicate TreeOk(t: Tree)
    decreases t
  {
    match t
    case LeafPage(items) => ItemsOk(items)
    case BranchPage(_, kids) => kids != [] && forall i :: 0 <= i < |kids| ==> TreeOk(kids[i])
  }

  lemma {:induction false} ItemsRepr(items: seq<Item>, pre: seq<Page>)
    requires ItemsOk(items)
    ensures var e := EmitItems(items, NUM_METAS + |pre|);
            forall i :: 0 <= i < |items| ==> SlotOk(Placed(pre + e.pages), e.slots[i], items[i])
    decreases |items|
  {
    if items != [] {
      var n, next := |items| - 1, NUM_METAS + |pre|;
      var e := EmitItems(items[..n], next);
      var x := EmitItem(items[n], next + |e.pages|);
      ItemsRepr(items[..n], pre);
      PlacedGrows(pre + e.pages, x.pages);
      assert pre + (e.pages + x.pages) == (pre + e.pages) + x.pages;
      forall i | 0 <= i < |items| ensures SlotOk(Placed(pre + EmitItems(items, next).pages),
        EmitItems(items, next).slots[i], items[i]) {
        if i < n {
          assert SlotOk(Placed(pre + e.pages), e.slots[i], items[..n][i]);
        }
      }
    }
  }

  /** The emitted pages hold the tree, at the root's new number. */
  lemma {:induction false} EmitRepr(t: Tree, pre: seq<Page>)
    requires TreeOk(t)
    ensures var e := Emit(t, NUM_METAS + |pre|); Repr(Placed(pre + e.pages), e.root, t)
    decreases t, if t.BranchPage? then |t.kids| + 1 else 0
  {
    hide Repr, Placed;
    var next := NUM_METAS + |pre|;
    match t
    case LeafPage(items) =>
      var e := EmitItems(items, next);
      ItemsRepr(items, pre);
      hide EmitItems;
      LeafRepr(items, pre + e.pages, e.slots);
      Assoc(pre, e.pages, [LeafPage(next + |e.pages|, e.slots)]);
    case BranchPage(seps, kids) =>
      var e := EmitKids(t, 0, next);
      KidsRepr(t, 0, pre);
      hide EmitKids;
      BranchRepr(seps, kids, pre + e.pages, e.roots);
      Assoc(pre, e.pages, [BranchPage(next + |e.pages|, seps, e.roots)]);
  }

  lemma Assoc(a: seq<Page>, b: seq<Page>, c: seq<Page>)
    ensures a + (b + c) == (a + b) + c
  {
  }

  /** One more page at the end of the file. */
  lemma PlacedLast(a: seq<Page>, x: Page)
    ensures var m, m' := Placed(a), Placed(a + [x]);
            |m'| == |m| + 1 && m'[|m|] == x && (forall q :: 0 <= q < |m| ==> m'[q] == m[q])
  {
  }

  lemma LeafRepr(items: seq<Item>, pages: seq<Page>, slots: seq<Slot>)
    requires |slots| == |items| && forall i :: 0 <= i < |items| ==> SlotOk(Placed(pages), slots[i], items[i])
    ensures var p := NUM_METAS + |pages|; Repr(Placed(pages + [LeafPage(p, slots)]), p, BTree.LeafPage(items))
  {
    hide Placed;
    var page := LeafPage(NUM_METAS + |pages|, slots);
    PlacedLast(pages, page);
    SlotsMono(Placed(pages), Placed(pages + [page]), slots, items);
  }

  lemma SlotsMono(m: File, m': File, slots: seq<Slot>, items: seq<Item>)
    requires |slots| == |items| && forall i :: 0 <= i < |items| ==> SlotOk(m, slots[i], items[i])
    requires |m| <= |m'| && forall q :: 0 <= q < |m| ==> m'[q] == m[q]
    ensures forall i :: 0 <= i < |items| ==> SlotOk(m', slots[i], items[i])
  {
    forall i | 0 <= i < |items| ensures SlotOk(m', slots[i], items[i]) {
      assert SlotOk(m, slots[i], items[i]);
    }
  }

  lemma BranchRepr(seps: seq<Bytes>, kids: seq<Tree>, pages: seq<Page>, roots: seq<int>)
    requires kids != [] && AllRepr(Placed(pages), roots, kids, 0)
    ensures var p := NUM_METAS + |pages|; Repr(Placed(pages + [BranchPage(p, seps, roots)]), p,
            BTree.BranchPage(seps, kids))
  {
    hide Placed;
    var page := BranchPage(NUM_METAS + |pages|, seps, roots);
    PlacedLast(pages, page);
    KidsMono(Placed(pages), Placed(pages + [page]), roots, kids);
  }

  lemma KidsMono(m: File, m': File, roots: seq<int>, kids: seq<Tree>)
    requires AllRepr(m, roots, kids, 0)
    requires |m| <= |m'| && forall q :: 0 <= q < |m| ==> m'[q] == m[q]
    ensures |roots| == |kids| && forall i :: 0 <= i < |kids| ==> Repr(m', roots[i], kids[i])
  {
    hide Repr;
    forall i | 0 <= i < |kids| ensures Repr(m', roots[i], kids[i]) {
      assert Repr(m, roots[i], kids[i]);
      ReprMono(m, m', roots[i], kids[i]);
    }
  }

  lemma {:induction false} KidsRepr(t: Tree, i: nat, pre: seq<Page>)
    requires TreeOk(t) && t.BranchPage? && i <= |t.kids|
    ensures var e := EmitKids(t, i, NUM_METAS + |pre|);
            AllRepr(Placed(pre + e.pages), e.roots, t.kids, i)
    decreases t, |t.kids| - i
  {
    hide Repr, Emit, Placed;
    if i < |t.kids| {
      var next := NUM_METAS + |pre|;
      var first := Emit(t.kids[i], next);
      var rest := EmitKids(t, i + 1, next + |first.pages|);
      EmitRepr(t.kids[i], pre);
      KidsRepr(t, i + 1, pre + first.pages);
      var all := pre + (first.pages + rest.pages);
      assert NUM_METAS + |pre + first.pages| == next + |first.pages|;
      Assoc(pre, first.pages, rest.pages);
      PlacedGrows(pre + first.pages, rest.pages);
      ReprMono(Placed(pre + first.pages), Placed(all), first.root, t.kids[i]);
      var e := EmittedKids(first.pages + rest.pages, [first.root] + rest.roots);
      assert EmitKids(t, i, next) == e;
      MoreRepr(Placed(pre + e.pages), first.root, rest.roots, t.kids, i);
    }
  }

  lemma MoreRepr(m: File, root: int, roots: seq<int>, kids: seq<Tree>, i: int)
    requires 0 <= i < |kids| && Repr(m, root, kids[i]) && AllRepr(m, roots, kids, i + 1)
    ensures AllRepr(m, [root] + roots, kids, i)
  {
    hide Repr;
    var all := [root] + roots;
    forall k, j | 0 <= k < |all| && j == i + k ensures Repr(m, all[k], kids[j]) {
      if 0 < k {
        var k' := k - 1;
        assert all[k] == roots[k'] && j == i + 1 + k';
      }
    }
  }
}
