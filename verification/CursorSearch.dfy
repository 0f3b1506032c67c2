/** mdb_node_search, and why following it down the tree finds the right leaf. */
module CursorSearch {
  import opened ByteOrder
  import opened PageNodes
  import opened BTree
  import opened Rebalance
  import opened CursorStack

  function KeyAt(t: Tree, i: int): Bytes
    requires 0 <= i < NumKeys(t) && (t.BranchPage? ==> |t.seps| == |t.kids|)
  {
    if t.LeafPage? then t.nodes[i].key else t.seps[i]
  }

  /** The first place with a key: branch pages have none at place 0. */
  function Low0(t: Tree): int { if t.LeafPage? then 0 else 1 }

  ghost predicate KeysAscend(t: Tree) {
    && (t.BranchPage? ==> |t.seps| == |t.kids|)
    && forall i, j :: Low0(t) <= i < j < NumKeys(t) ==> Lt(KeyAt(t, i), KeyAt(t, j))
  }

  lemma {:induction false} SepsAscend(t: Tree, i: int, j: int)
    requires t.BranchPage? && SepsOk(t) && 1 <= i < j < |t.seps|
    ensures Lt(t.seps[i], t.seps[j])
    decreases j
  {
    var k := j - 1;
    assert Lt(t.seps[k], t.seps[j]);
    if i < k {
      SepsAscend(t, i, k);
      Transitive(t.seps[i], t.seps[k], t.seps[j]);
    }
  }

  lemma PageAscends(t: Tree, d: nat)
    requires Weak(t, d) && Sorted(InOrder(t))
    ensures KeysAscend(t)
  {
    if d > 0 {
      forall i, j | 1 <= i < j < |t.seps| ensures Lt(t.seps[i], t.seps[j]) { SepsAscend(t, i, j); }
    }
  }

  /** Place i is where the key belongs: smaller ones are before it. */
  ghost predicate Placed(t: Tree, key: Bytes, i: int)
    requires t.BranchPage? ==> |t.seps| == |t.kids|
  {
    && Low0(t) <= i <= NumKeys(t)
    && (forall k :: Low0(t) <= k < i ==> Lt(KeyAt(t, k), key))
    && (forall k :: i <= k < NumKeys(t) ==> Le(key, KeyAt(t, k)))
  }

  /** Binary search on one page; found is false where the source returns no node. */
  method NodeSearch(mp: Tree, key: Bytes) returns (i: int, exact: bool, found: bool)
    requires KeysAscend(mp)
    ensures Low0(mp) < NumKeys(mp) ==> Placed(mp, key, i) && (exact <==> i < NumKeys(mp) && KeyAt(mp, i) == key)
    ensures Low0(mp) < NumKeys(mp) ==> (found <==> i < NumKeys(mp))
    ensures Low0(mp) >= NumKeys(mp) ==> i == 0 && !found
  {
    hide Compare;
    var nkeys := NumKeys(mp);
    var low, high, rc := Low0(mp), nkeys - 1, 0;
    i, found := 0, false;
    while low <= high
      invariant if Low0(mp) < nkeys then Low0(mp) <= low <= high + 1 <= nkeys else rc == 0 && high < low
      invariant forall k :: Low0(mp) <= k < low && k < nkeys ==> Lt(KeyAt(mp, k), key)
      invariant forall k :: high < k < nkeys && Low0(mp) <= k ==> Lt(key, KeyAt(mp, k))
      invariant if rc > 0 then low == i + 1
                else if rc < 0 then high == i - 1
                else i == 0 && low == Low0(mp) && high == nkeys - 1
      invariant found <==> rc != 0
      decreases high - low
    {
      i := (low + high) / 2;
      found := true;
      rc := Compare(key, KeyAt(mp, i));
      Narrows(mp, key, i);
      if rc == 0 { break; }
      if rc > 0 { low := i + 1; } else { high := i - 1; }
    }
    if rc > 0 { i := i + 1; }
    exact := rc == 0 && nkeys > 0;
    if i >= nkeys { found := false; }
    LeAll(mp, key);
  }

  /** What one comparison says about the other places. */
  lemma Narrows(t: Tree, key: Bytes, i: int)
    requires KeysAscend(t) && Low0(t) <= i < NumKeys(t)
    ensures Compare(key, KeyAt(t, i)) >= 0 ==> forall k :: Low0(t) <= k < i ==> Lt(KeyAt(t, k), key)
    ensures Compare(key, KeyAt(t, i)) <= 0 ==> forall k :: i < k < NumKeys(t) ==> Lt(key, KeyAt(t, k))
    ensures Compare(key, KeyAt(t, i)) == 0 <==> KeyAt(t, i) == key
    ensures Compare(key, KeyAt(t, i)) > 0 <==> Lt(KeyAt(t, i), key)
  {
    var x := KeyAt(t, i);
    Equal(key, x);
    Antisymmetric(key, x);
    forall k | Low0(t) <= k < i ensures Compare(key, x) >= 0 ==> Lt(KeyAt(t, k), key) {
      assert Lt(KeyAt(t, k), x);
      Transitive(KeyAt(t, k), x, key);
    }
    forall k | i < k < NumKeys(t) ensures Compare(key, x) <= 0 ==> Lt(key, KeyAt(t, k)) {
      assert Lt(x, KeyAt(t, k));
      Transitive(key, x, KeyAt(t, k));
    }
  }

  lemma LeAll(t: Tree, key: Bytes)
    requires t.BranchPage? ==> |t.seps| == |t.kids|
    ensures forall k :: 0 <= k < NumKeys(t) && Lt(key, KeyAt(t, k)) ==> Le(key, KeyAt(t, k)) && KeyAt(t, k) != key
    ensures forall k :: 0 <= k < NumKeys(t) && Lt(KeyAt(t, k), key) ==> KeyAt(t, k) != key
  {
    Equal(key, key);
  }

  // ---- down the tree ----

  /** All entries before place k are below the key, all from place k + n on above it. */
  ghost predicate Narrow(all: seq<Node>, k: nat, n: nat, key: Bytes) {
    && k + n <= |all|
    && (forall i :: 0 <= i < k ==> Lt(all[i].key, key))
    && (forall i :: k + n <= i < |all| ==> Lt(key, all[i].key))
  }

  /** Place r is where the key belongs among all entries. */
  ghost predicate IsBound(all: seq<Node>, key: Bytes, r: int) {
    && 0 <= r <= |all|
    && (forall i :: 0 <= i < r ==> Lt(all[i].key, key))
    && (forall i :: r <= i < |all| ==> Le(key, all[i].key))
  }

  /** Child i is the one to follow. */
  ghost predicate Follows(t: Tree, key: Bytes, i: int) {
    && t.BranchPage? && |t.seps| == |t.kids| && 0 <= i < |t.kids|
    && (0 < i ==> Le(t.seps[i], key)) && (i + 1 < |t.kids| ==> Lt(key, t.seps[i + 1]))
  }

  /** The index arithmetic of mdb_page_search_root on a branch page. */
  function FollowIndex(t: Tree, i: int, exact: bool, found: bool): int {
    if !found then NumKeys(t) - 1 else if exact then i else i - 1
  }

  lemma FollowOk(t: Tree, key: Bytes, i: int, exact: bool, found: bool)
    requires t.BranchPage? && KeysAscend(t) && 0 < |t.kids|
    requires 1 < |t.kids| ==>
            Placed(t, key, i) && (exact <==> i < |t.kids| && t.seps[i] == key) &&
            (found <==> i < |t.kids|)
    requires 1 >= |t.kids| ==> !found
    ensures Follows(t, key, FollowIndex(t, i, exact, found))
  {
    Equal(key, key);
    if 1 < |t.kids| {
      if found {
        Trichotomy(key, KeyAt(t, i));
        Narrows(t, key, i);
        if !exact && 1 < i { assert Lt(KeyAt(t, i - 1), key); }
        if exact && i + 1 < |t.kids| { assert Lt(KeyAt(t, i), KeyAt(t, i + 1)); }
      } else {
        assert Lt(KeyAt(t, |t.kids| - 1), key);
      }
    }
  }

  /** What lies below the other children is out of the question. */
  lemma FollowNarrows(t: Tree, d: nat, key: Bytes, i: int)
    requires d > 0 && Weak(t, d) && Sorted(InOrder(t)) && Follows(t, key, i)
    ensures Narrow(InOrder(t), |Below(t.kids[..i])|, |InOrder(t.kids[i])|, key)
  {
    var all, a, m, b := InOrder(t), Below(t.kids[..i]), InOrder(t.kids[i]), Below(t.kids[i + 1..]);
    InOrderBelow(t);
    KidSlice(t, i);
    if 0 < i {
      SepSplits(t, d, i);
      forall k | 0 <= k < |a| ensures Lt(a[k].key, key) { Transitive(a[k].key, t.seps[i], key); }
    } else {
      BelowNone(t.kids[..i]);
    }
    if i + 1 < |t.kids| {
      SepSplits(t, d, i + 1);
      forall k | 0 <= k < |b| ensures Lt(key, b[k].key) { Transitive(key, t.seps[i + 1], b[k].key); }
    } else {
      BelowNone(t.kids[i + 1..]);
    }
    hide InOrder, Below, Weak, Sorted;
    NarrowParts(a, m, b, key);
  }

  lemma NarrowParts(a: seq<Node>, m: seq<Node>, b: seq<Node>, key: Bytes)
    requires (forall k :: 0 <= k < |a| ==> Lt(a[k].key, key)) && forall k :: 0 <= k < |b| ==> Lt(key, b[k].key)
    ensures Narrow(a + m + b, |a|, |m|, key)
  {
  }

  /** Narrowing within a part that holds all candidates narrows the whole. */
  lemma NarrowTrans(all: seq<Node>, k: nat, part: seq<Node>, j: nat, n: nat, key: Bytes)
    requires Narrow(all, k, |part|, key) && SliceAt(all, k, part) && Narrow(part, j, n, key)
    ensures Narrow(all, k + j, n, key)
  {
    forall i | 0 <= i < k + j ensures Lt(all[i].key, key) {
      if k <= i { assert all[k + (i - k)] == part[i - k]; }
    }
    forall i | k + j + n <= i < |all| ensures Lt(key, all[i].key) {
      if i < k + |part| { assert all[k + (i - k)] == part[i - k]; }
    }
  }

  /** In the right leaf, the place of the key is its place among all. */
  lemma LeafBound(all: seq<Node>, k: nat, leaf: Tree, key: Bytes, i: int)
    requires leaf.LeafPage? && Narrow(all, k, |leaf.nodes|, key) && SliceAt(all, k, leaf.nodes) && Placed(leaf, key, i)
    ensures IsBound(all, key, k + i)
  {
    forall j | 0 <= j < k + i ensures Lt(all[j].key, key) {
      if k <= j {
        assert all[k + (j - k)] == leaf.nodes[j - k];
        assert Lt(KeyAt(leaf, j - k), key);
      }
    }
    forall j | k + i <= j < |all| ensures Le(key, all[j].key) {
      if j < k + |leaf.nodes| {
        assert all[k + (j - k)] == leaf.nodes[j - k];
        assert Le(key, KeyAt(leaf, j - k));
      } else {
        assert Lt(key, all[j].key);
      }
    }
  }

  /** What a search keeps on the way down: the page on top starts the tree, or holds every
      entry that could be meant. */
  ghost predicate Aiming(s: Stack, t: Tree, d: nat, first: bool, key: Bytes) {
    && StackOk(s, t, d)
    && (first ==> Offset(s) == 0)
    && (!first ==> Narrow(InOrder(t), Offset(s), |InOrder(Top(s).page)|, key))
  }

  lemma AimStart(t: Tree, d: nat, ki: int, first: bool, key: Bytes)
    requires Weak(t, d) && Sorted(InOrder(t))
    ensures Aiming([Frame(t, ki)], t, d, first, key)
  {
  }

  lemma AimDown(s: Stack, t: Tree, d: nat, first: bool, key: Bytes, i: int)
    requires Aiming(s, t, d, first, key) && Top(s).page.BranchPage? && 0 <= i < |Top(s).page.kids|
    requires if first then i == 0 else Follows(Top(s).page, key, i)
    ensures |s| <= d
    ensures Aiming(CursorStack.Pop(s) + [Frame(Top(s).page, i)] + [Frame(Top(s).page.kids[i], 0)], t, d, first, key)
  {
    var mp := Top(s).page;
    LevelOk(s, t, d);
    LevelBranch(mp, d + 1 - |s|);
    MoveOk(s, t, d, i);
    var r := CursorStack.Pop(s) + [Frame(mp, i)];
    PushOk(r, t, d, Frame(mp.kids[i], 0));
    TopSlice(s, t, d);
    SliceSorted(InOrder(t), Offset(s), InOrder(mp));
    hide InOrder, Below, Sorted, Weak, Offset, StackOk, Narrow;
    if first {
      BelowNone(mp.kids[..0]);
    } else {
      FollowNarrows(mp, d + 1 - |s|, key, i);
      NarrowTrans(InOrder(t), Offset(s), InOrder(mp), |Below(mp.kids[..i])|, |InOrder(mp.kids[i])|, key);
    }
  }

  lemma LevelBranch(t: Tree, d: int)
    requires 0 <= d && Weak(t, d)
    ensures t.BranchPage? <==> d > 0
  {
  }

  lemma SliceSorted(all: seq<Node>, k: nat, part: seq<Node>)
    requires Sorted(all) && SliceAt(all, k, part)
    ensures Sorted(part)
  {
    forall i, j | 0 <= i < j < |part| ensures Lt(part[i].key, part[j].key) {
      assert Lt(all[k + i].key, all[k + j].key);
    }
  }

  // ---- what a place says about a key ----

  /** The place of an entry with the key itself. */
  lemma BoundAt(all: seq<Node>, key: Bytes, r: int)
    requires Sorted(all) && 0 <= r < |all| && all[r].key == key
    ensures IsBound(all, key, r)
  {
    Equal(key, key);
    forall i | r <= i < |all| ensures Le(key, all[i].key) {
      if r < i { assert Lt(all[r].key, all[i].key); }
    }
  }

  ghost predicate Absent(all: seq<Node>, key: Bytes) { forall i :: 0 <= i < |all| ==> all[i].key != key }

  lemma BoundAbsent(all: seq<Node>, key: Bytes, r: int)
    requires Sorted(all) && IsBound(all, key, r) && (r < |all| ==> all[r].key != key)
    ensures Absent(all, key)
  {
    Equal(key, key);
    forall i | 0 <= i < |all| ensures all[i].key != key {
      if r < i {
        assert Lt(all[r].key, all[i].key);
        Trichotomy(key, all[r].key);
        Transitive(key, all[r].key, all[i].key);
      }
    }
  }

  /** Between the first and the last key of a page, nothing elsewhere is meant. */
  lemma LocalNarrow(all: seq<Node>, k: nat, part: seq<Node>, key: Bytes)
    requires Sorted(all) && SliceAt(all, k, part) && part != []
    requires Lt(part[0].key, key) && Lt(key, part[|part| - 1].key)
    ensures Narrow(all, k, |part|, key)
  {
    var n := |part| - 1;
    assert all[k + 0] == part[0] && all[k + n] == part[n];
    forall i | 0 <= i < k ensures Lt(all[i].key, key) {
      assert Lt(all[i].key, all[k].key);
      Transitive(all[i].key, all[k].key, key);
    }
    forall i | k + |part| <= i < |all| ensures Lt(key, all[i].key) {
      assert Lt(all[k + n].key, all[i].key);
      Transitive(key, all[k + n].key, all[i].key);
    }
  }

  /** Beyond the last key of the last page. */
  lemma BeyondAll(all: seq<Node>, key: Bytes)
    requires Sorted(all) && (all != [] ==> Lt(all[|all| - 1].key, key))
    ensures IsBound(all, key, |all|) && Absent(all, key)
  {
    var n := |all| - 1;
    forall i | 0 <= i < |all| ensures Lt(all[i].key, key) {
      if i < n {
        assert Lt(all[i].key, all[n].key);
        Transitive(all[i].key, all[n].key, key);
      }
    }
    BoundAbsent(all, key, |all|);
  }

  /** Before the first key. */
  lemma BeforeAll(all: seq<Node>, key: Bytes)
    requires Sorted(all) && all != [] && Lt(key, all[0].key)
    ensures IsBound(all, key, 0) && Absent(all, key)
  {
    forall i | 0 <= i < |all| ensures Le(key, all[i].key) {
      if 0 < i {
        assert Lt(all[0].key, all[i].key);
        Transitive(key, all[0].key, all[i].key);
      }
    }
    Equal(key, key);
    BoundAbsent(all, key, 0);
  }

  /** No page on the way has a child to the right. */
  ghost predicate AllLast(s: Stack) {
    forall i :: 0 <= i < |s| - 1 ==> s[i].ki + 1 >= NumKeys(s[i].page)
  }

  lemma {:induction false} LastPage(s: Stack, t: Tree, d: nat)
    requires StackOk(s, t, d) && AllLast(s)
    ensures Sibling(s, true).None? && Offset(s) + |InOrder(Top(s).page)| == |InOrder(t)|
    decreases |s|
  {
    RightSibling(s, t, d);
    if 1 < |s| {
      PopOk(s, t, d);
      LastPage(CursorStack.Pop(s), t, d);
    }
  }
}
