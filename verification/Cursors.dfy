/** Cursors over a tree: mdb_cursor_first, mdb_cursor_next, mdb_cursor_sibling and
    mdb_cursor_set. */
module Cursors {
  import opened ByteOrder
  import opened PageNodes
  import opened BTree
  import opened Rebalance
  import opened CursorStack
  import opened CursorSearch

  const SUCCESS := 0
  const MDB_NOTFOUND := -30798
  const MDB_CURSOR_FULL := -30787
  const MDB_BAD_VALSIZE := -30781
  const CURSOR_STACK := 32

  class Cursor {
    const root: Tree
    ghost const d: nat
    var pg: seq<Frame>        // mc_pg and mc_ki
    var snum: nat
    var init: bool            // C_INITIALIZED
    var eof: bool             // C_EOF

    constructor (root: Tree, ghost d: nat)
      requires Weak(root, d) && Sorted(InOrder(root)) && d < CURSOR_STACK
      ensures Valid() && !init && this.root == root && this.d == d
    {
      this.root, this.d := root, d;
      pg, snum, init, eof := seq(CURSOR_STACK, _ => Frame(LeafPage([]), 0)), 0, false, false;
    }

    ghost predicate Valid()
      reads this
    {
      && |pg| == CURSOR_STACK && snum <= CURSOR_STACK && d < CURSOR_STACK
      && Weak(root, d) && Sorted(InOrder(root))
      && (init ==> OnLeaf())
    }

    ghost predicate OnLeaf()
      reads this
    {
      && |pg| == CURSOR_STACK && snum == d + 1 <= CURSOR_STACK && StackOk(pg[..snum], root, d)
      && 0 <= pg[snum - 1].ki <= NumKeys(pg[snum - 1].page)
      && pg[snum - 1].page.LeafPage? && 0 < NumKeys(pg[snum - 1].page) && 0 < NumKeys(root)
      && (eof ==> Offset(pg[..snum]) + NumKeys(pg[snum - 1].page) == |InOrder(root)|)
    }

    /** The cursor stands on an entry. */
    ghost predicate Settled()
      reads this
    {
      Valid() && init && pg[snum - 1].ki < NumKeys(pg[snum - 1].page)
    }

    /** The position among all entries. */
    ghost function Pos(): int
      requires |pg| == CURSOR_STACK && 0 < snum <= CURSOR_STACK
      reads this
    {
      Offset(pg[..snum]) + pg[snum - 1].ki
    }

    /** The position that comes next: the first one, or the one after the entry the cursor stands
        on, or, past the last entry of a leaf, the first one of the next leaf. */
    ghost function After(): int
      requires Valid()
      reads this
    {
      if !init then 0 else if Settled() then Pos() + 1 else Pos()
    }

    /** mdb_cursor_push. */
    method Push(mp: Tree) returns (rc: int)
      requires |pg| == CURSOR_STACK && snum <= CURSOR_STACK
      modifies this`pg, this`snum
      ensures |pg| == CURSOR_STACK
      ensures rc == SUCCESS ==>
              old(snum) < CURSOR_STACK && snum == old(snum) + 1 &&
              pg[..snum] == old(pg[..snum]) + [Frame(mp, 0)]
      ensures rc != SUCCESS ==> rc == MDB_CURSOR_FULL && old(snum) == CURSOR_STACK && pg == old(pg) && snum == old(snum)
    {
      if snum >= CURSOR_STACK { return MDB_CURSOR_FULL; }
      pg := pg[snum := Frame(mp, 0)];
      snum := snum + 1;
      rc := SUCCESS;
    }

    /** mdb_cursor_sibling: the page beside the one on top. When there is none the pages
        popped on the way are put back. */
    method MoveSibling(right: bool) returns (rc: int)
      requires |pg| == CURSOR_STACK && 0 < snum <= CURSOR_STACK && snum <= d + 1 && StackOk(pg[..snum], root, d)
      requires d < CURSOR_STACK
      modifies this`pg, this`snum
      ensures |pg| == CURSOR_STACK && snum == old(snum)
      ensures rc == SUCCESS ==> Sibling(old(pg[..snum]), right) == Some(pg[..snum])
      ensures rc != SUCCESS ==> rc == MDB_NOTFOUND && Sibling(old(pg[..snum]), right).None? && pg == old(pg)
      decreases snum
    {
      hide StackOk, Sibling;
      ghost var s := pg[..snum];
      if snum < 2 {
        NoSibling(s, right);
        return MDB_NOTFOUND;
      }
      PopOk(s, root, d);
      PushedBack(s);
      snum := snum - 1;
      assert pg[..snum] == CursorStack.Pop(s);
      var f := pg[snum - 1];
      if AtEnd(f, right) {
        rc := MoveSibling(right);
        if rc != SUCCESS {
          EndSibling(s, right);
          snum := snum + 1;
          return;
        }
      } else {
        pg := pg[snum - 1 := Step(f, right)];
        assert pg[..snum] == CursorStack.Pop(CursorStack.Pop(s)) + [Step(f, right)];
      }
      ghost var found := pg[..snum];
      UpperMoved(s, root, d, right, found);
      var indx := pg[snum - 1];
      var mp := indx.page.kids[indx.ki];
      rc := Push(mp);
      if !right {
        pg := pg[snum - 1 := Frame(mp, NumKeys(mp) - 1)];
      }
      assert pg[..snum] == found + [Frame(mp, if right then 0 else NumKeys(mp) - 1)];
    }

    /** mdb_page_search: from the root down to the first leaf, or to the one for a key. The
        place on a root leaf is left as it was. */
    method PageSearch(first: bool, key: Bytes) returns (rc: int)
      requires Valid()
      modifies this
      ensures rc == if NumKeys(root) == 0 then MDB_NOTFOUND else SUCCESS
      ensures rc != SUCCESS ==> pg == old(pg) && snum == old(snum) && init == old(init)
      ensures rc == SUCCESS ==>
                && |pg| == CURSOR_STACK && snum == d + 1 && init && !eof
                && Aiming(pg[..snum], root, d, first, key) && pg[snum - 1].page.LeafPage?
    {
      hide Aiming, StackOk, Sorted, Follows, KeysAscend;
      if NumKeys(root) == 0 { return MDB_NOTFOUND; }
      pg := pg[0 := Frame(root, pg[0].ki)];
      snum := 1;
      assert pg[..1] == [pg[0]];
      AimStart(root, d, pg[0].ki, first, key);
      while pg[snum - 1].page.BranchPage?
        invariant |pg| == CURSOR_STACK && 1 <= snum <= d + 1 && Aiming(pg[..snum], root, d, first, key)
        decreases d + 1 - snum
      {
        ghost var s := pg[..snum];
        var mp := pg[snum - 1].page;
        AimPage(s, root, d, first, key);
        var i := 0;
        if !first {
          var exact, found;
          i, exact, found := NodeSearch(mp, key);
          FollowOk(mp, key, i, exact, found);
          i := FollowIndex(mp, i, exact, found);
          FollowRange(mp, key, i);
        }
        AimDown(s, root, d, first, key, i);
        pg := pg[snum - 1 := Frame(mp, i)];
        rc := Push(mp.kids[i]);
        assert pg[..snum] == CursorStack.Pop(s) + [Frame(mp, i)] + [Frame(mp.kids[i], 0)];
      }
      AimPage(pg[..snum], root, d, first, key);
      init, eof := true, false;
      rc := SUCCESS;
    }

    /** Another place on the leaf. */
    method SetKi(ki: int)
      requires |pg| == CURSOR_STACK && 0 < snum == d + 1 <= CURSOR_STACK && StackOk(pg[..snum], root, d)
      modifies this`pg
      ensures |pg| == CURSOR_STACK && StackOk(pg[..snum], root, d) && pg[snum - 1] == old(pg[snum - 1]).(ki := ki)
      ensures Offset(pg[..snum]) == Offset(old(pg[..snum]))
    {
      hide StackOk;
      ghost var s := pg[..snum];
      MoveOkStack(s, root, d, ki);
      pg := pg[snum - 1 := pg[snum - 1].(ki := ki)];
      assert pg[..snum] == CursorStack.Pop(s) + [Top(s).(ki := ki)];
    }

    /** mdb_cursor_first. */
    method First() returns (rc: int, e: Node)
      requires Valid()
      modifies this
      ensures Valid() && rc == if InOrder(root) == [] then MDB_NOTFOUND else SUCCESS
      ensures rc == SUCCESS ==> Settled() && Pos() == 0 && e == InOrder(root)[0]
    {
      hide StackOk, Aiming, Sorted;
      e := Branch([], 0);
      RootEmpty(root, d);
      if !init || snum > 1 {
        rc := PageSearch(true, []);
        if rc != SUCCESS { return; }
        AimedStack(pg[..snum], root, d, true, []);
      } else {
        RootStack(pg[..snum], root, d);
      }
      SetKi(0);
      init, eof := true, false;
      Entry(pg[..snum], root, d);
      e := pg[snum - 1].page.nodes[0];
      rc := SUCCESS;
    }

    /** On to the next leaf, if there is one. */
    method NextLeaf() returns (rc: int)
      requires Valid() && init
      modifies this
      ensures Valid() && init && (rc == SUCCESS || rc == MDB_NOTFOUND)
      ensures rc == SUCCESS ==> Settled() && pg[snum - 1].ki == 0 && eof == old(eof)
      ensures rc == SUCCESS ==>
                Offset(pg[..snum]) == old(Offset(pg[..snum]) + NumKeys(pg[snum - 1].page)) < |InOrder(root)|
      ensures rc != SUCCESS ==> pg == old(pg) && snum == old(snum) && eof
      ensures rc != SUCCESS ==> Offset(pg[..snum]) + NumKeys(pg[snum - 1].page) == |InOrder(root)|
    {
      hide StackOk, Sorted, Sibling, Weak, SliceAt;
      Entry(pg[..snum], root, d);
      SiblingLeaf(pg[..snum], root, d);
      rc := MoveSibling(true);
      if rc != SUCCESS {
        eof := true;
        return;
      }
      Entry(pg[..snum], root, d);
      SliceHead(InOrder(root), Offset(pg[..snum]), pg[snum - 1].page.nodes);
    }

    /** mdb_cursor_next. */
    method Next() returns (rc: int, e: Node)
      requires Valid()
      modifies this
      ensures Valid()
      ensures rc == if old(After()) < |InOrder(root)| then SUCCESS else MDB_NOTFOUND
      ensures rc == SUCCESS ==> Settled() && Pos() == old(After()) && e == InOrder(root)[Pos()]
      ensures old(init) && rc != SUCCESS ==> init && pg[..snum] == old(pg)[..old(snum)] && eof
    {
      hide StackOk, Aiming, Sorted, Sibling, Weak;
      e := Branch([], 0);
      if !init {
        rc, e := First();
        return;
      }
      var n := NumKeys(pg[snum - 1].page);
      Entry(pg[..snum], root, d);
      if eof {
        if pg[snum - 1].ki >= n - 1 { return MDB_NOTFOUND, e; }
        eof := false;
      }
      if pg[snum - 1].ki + 1 >= n {
        rc := NextLeaf();
        if rc != SUCCESS { return; }
      } else {
        SetKi(pg[snum - 1].ki + 1);
      }
      Entry(pg[..snum], root, d);
      e := pg[snum - 1].page.nodes[pg[snum - 1].ki];
      rc := SUCCESS;
    }

    /** The entry the cursor stands on. */
    method Current() returns (e: Node)
      requires Settled()
      ensures 0 <= Pos() < |InOrder(root)| && e == InOrder(root)[Pos()]
    {
      hide StackOk, Sorted, Weak;
      Entry(pg[..snum], root, d);
      e := pg[snum - 1].page.nodes[pg[snum - 1].ki];
    }

    /** Do all pages above the leaf stand on their last child? */
    method NoOtherPages() returns (last: bool)
      requires Valid() && init
      ensures last <==> AllLast(pg[..snum])
    {
      var i := 0;
      while i < snum - 1
        invariant 0 <= i <= snum - 1 && forall k :: 0 <= k < i ==> pg[k].ki + 1 >= NumKeys(pg[k].page)
      {
        if pg[i].ki < NumKeys(pg[i].page) - 1 {
          assert pg[..snum][i] == pg[i];
          return false;
        }
        i := i + 1;
      }
      return true;
    }

    /** The cursor stands where the key belongs. */
    ghost predicate At(key: Bytes, range: bool)
      reads this
    {
      Settled() && Found(InOrder(root), key, Pos(), range)
    }

    /** The end of mdb_cursor_set: the key's place on the leaf, or on the next one. */
    method Land(key: Bytes, range: bool) returns (rc: int)
      requires |pg| == CURSOR_STACK && snum == d + 1 <= CURSOR_STACK && StackOk(pg[..snum], root, d)
      requires 0 < NumKeys(root)
      requires Weak(root, d) && Sorted(InOrder(root)) && init && !eof
      requires Narrow(InOrder(root), Offset(pg[..snum]), |InOrder(pg[snum - 1].page)|, key)
      modifies this
      ensures Valid() && rc in {SUCCESS, MDB_NOTFOUND}
      ensures if rc == SUCCESS then At(key, range) else Missed(InOrder(root), key, range)
    {
      hide StackOk, Sorted, Sibling, Narrow, IsBound, Absent, KeysAscend, Missed, Placed, Weak, SliceAt;
      ghost var s, all := pg[..snum], InOrder(root);
      Entry(s, root, d);
      LeafAscends(s, root, d);
      var mp := pg[snum - 1].page;
      var i, exact, found := NodeSearch(mp, key);
      PlacedRange(mp, key, i);
      LeafBound(all, Offset(s), mp, key, i);
      SetKi(i);
      if !range && !exact {
        NotThere(all, Offset(s), mp, key, i);
        return MDB_NOTFOUND;
      }
      if !found {
        rc := NextLeaf();
        if rc != SUCCESS {
          MissedEnd(all, key, range);
          return;
        }
      } else {
        EntryKey(all, Offset(s), mp.nodes, i);
      }
      rc := SUCCESS;
    }

    /** mdb_cursor_set on a cursor already set: is the key on its page, or nowhere? */
    method SetHere(key: Bytes, range: bool) returns (done: bool, rc: int)
      requires Valid() && init
      modifies this
      ensures Valid() && (!done ==> pg == old(pg) && snum == old(snum) && init)
      ensures done ==> rc in {SUCCESS, MDB_NOTFOUND}
      ensures done ==> if rc == SUCCESS then At(key, range) else Missed(InOrder(root), key, range)
    {
      hide StackOk, Sorted, Sibling, Narrow, IsBound, Absent, Aiming, AllLast, Missed, Found, SliceAt, Weak;
      ghost var all, s := InOrder(root), pg[..snum];
      Entry(s, root, d);
      var mp := pg[snum - 1].page;
      var nkeys := NumKeys(mp);
      KeyOrder(key, mp.nodes[0].key);
      var toFirst := Compare(key, mp.nodes[0].key);
      if toFirst == 0 {
        FoundAt(all, key, Offset(s), mp.nodes, 0, range);
        SetKi(0);
        eof := false;
        return true, SUCCESS;
      }
      if toFirst > 0 {
        done, rc := SetAbove(key, range);
        return;
      }
      if snum == 1 {
        OnlyPage(s, root, d);
        BeforeOnly(all, key, mp.nodes, range);
        SetKi(0);
        if range { eof := false; }
        return true, if range then SUCCESS else MDB_NOTFOUND;
      }
      done, rc := false, SUCCESS;
    }

    /** The key is above the first one of the page. */
    method SetAbove(key: Bytes, range: bool) returns (done: bool, rc: int)
      requires Valid() && init && Lt(pg[snum - 1].page.nodes[0].key, key)
      modifies this
      ensures Valid() && (!done ==> pg == old(pg) && snum == old(snum) && init)
      ensures done ==> rc in {SUCCESS, MDB_NOTFOUND}
      ensures done ==> if rc == SUCCESS then At(key, range) else Missed(InOrder(root), key, range)
    {
      hide StackOk, Sorted, Sibling, Narrow, IsBound, Absent, Aiming, AllLast, Missed, Found, SliceAt, Weak;
      ghost var all, s := InOrder(root), pg[..snum];
      Entry(s, root, d);
      var mp := pg[snum - 1].page;
      var nkeys := NumKeys(mp);
      KeyOrder(key, mp.nodes[nkeys - 1].key);
      KeyOrder(mp.nodes[0].key, key);
      var toLast := Compare(key, mp.nodes[nkeys - 1].key);
      if nkeys > 1 && toLast == 0 {
        FoundAt(all, key, Offset(s), mp.nodes, nkeys - 1, range);
        SetKi(nkeys - 1);
        eof := false;
        return true, SUCCESS;
      }
      if nkeys > 1 && toLast < 0 {
        rc := SetWithin(key, range);
        return true, rc;
      }
      var end := NoOtherPages();
      if end {
        LastPage(s, root, d);
        MissedLast(all, key, Offset(s), mp.nodes, range);
        SetKi(nkeys);
        return true, MDB_NOTFOUND;
      }
      done, rc := false, SUCCESS;
    }

    /** The key is between the first and the last one of the page. */
    method SetWithin(key: Bytes, range: bool) returns (rc: int)
      requires Valid() && init
      requires var p := pg[snum - 1].page; Lt(p.nodes[0].key, key) && Lt(key, p.nodes[NumKeys(p) - 1].key)
      modifies this
      ensures Valid() && rc in {SUCCESS, MDB_NOTFOUND}
      ensures if rc == SUCCESS then At(key, range) else Missed(InOrder(root), key, range)
    {
      hide StackOk, Sorted, Sibling, Narrow, IsBound, Absent, Missed, Found, SliceAt, Weak;
      ghost var all, s := InOrder(root), pg[..snum];
      Entry(s, root, d);
      var mp, ki := pg[snum - 1].page, pg[snum - 1].ki;
      eof := false;
      if ki < NumKeys(mp) {
        Equal(key, mp.nodes[ki].key);
        if Compare(key, mp.nodes[ki].key) == 0 {
          FoundAt(all, key, Offset(s), mp.nodes, ki, range);
          return SUCCESS;
        }
      }
      LocalNarrow(all, Offset(s), mp.nodes, key);
      rc := Land(key, range);
    }

    /** mdb_cursor_set: to the first entry not below the key (range), or to the key itself. A
        cursor already on the right page does not go back to the root. */
    method Set(key: Bytes, range: bool) returns (rc: int)
      requires Valid()
      modifies this
      ensures Valid() && (key == [] <==> rc == MDB_BAD_VALSIZE)
      ensures key != [] ==> rc in {SUCCESS, MDB_NOTFOUND}
      ensures key != [] ==> if rc == SUCCESS then At(key, range) else Missed(InOrder(root), key, range)
    {
      hide StackOk, Sorted, Narrow, IsBound, Absent, Aiming, Missed, Found, Weak;
      if key == [] { return MDB_BAD_VALSIZE; }
      if init {
        var done;
        done, rc := SetHere(key, range);
        if done { return; }
      }
      rc := PageSearch(false, key);
      if rc != SUCCESS {
        RootEmpty(root, d);
        MissedEmpty(InOrder(root), key, range);
        return;
      }
      AimedNarrow(pg[..snum], root, d, key);
      rc := Land(key, range);
    }
  }

  /** Entry r is the first one not below the key, or the key's own. */
  ghost predicate Found(all: seq<Node>, key: Bytes, r: int, range: bool) {
    0 <= r < |all| && IsBound(all, key, r) && (!range ==> all[r].key == key)
  }

  /** There is no such entry. */
  ghost predicate Missed(all: seq<Node>, key: Bytes, range: bool) {
    if range then IsBound(all, key, |all|) else Absent(all, key)
  }

  lemma KeyOrder(a: Bytes, b: Bytes)
    ensures Compare(a, b) < 0 <==> Lt(a, b)
    ensures Compare(a, b) > 0 <==> Lt(b, a)
    ensures Compare(a, b) == 0 <==> a == b
  {
    Antisymmetric(a, b);
    Equal(a, b);
  }

  lemma PlacedRange(t: Tree, key: Bytes, i: int)
    requires t.LeafPage? && Placed(t, key, i)
    ensures 0 <= i <= |t.nodes|
  {
  }

  lemma SliceHead(all: seq<Node>, k: nat, part: seq<Node>)
    requires SliceAt(all, k, part) && part != []
    ensures k < |all| && all[k] == part[0]
  {
    assert all[k + 0] == part[0];
  }

  lemma EntryKey(all: seq<Node>, k: nat, part: seq<Node>, i: int)
    requires SliceAt(all, k, part) && 0 <= i < |part|
    ensures k + i < |all| && all[k + i] == part[i]
  {
  }

  lemma MissedEnd(all: seq<Node>, key: Bytes, range: bool)
    requires IsBound(all, key, |all|)
    ensures range ==> Missed(all, key, range)
  {
  }

  lemma MissedEmpty(all: seq<Node>, key: Bytes, range: bool)
    requires all == []
    ensures Missed(all, key, range)
  {
  }

  lemma FoundAt(all: seq<Node>, key: Bytes, k: nat, part: seq<Node>, i: int, range: bool)
    requires Sorted(all) && SliceAt(all, k, part) && 0 <= i < |part| && part[i].key == key
    ensures Found(all, key, k + i, range)
  {
    EntryKey(all, k, part, i);
    BoundAt(all, key, k + i);
  }

  lemma MissedLast(all: seq<Node>, key: Bytes, k: nat, part: seq<Node>, range: bool)
    requires Sorted(all) && SliceAt(all, k, part) && part != [] && k + |part| == |all| && Lt(part[|part| - 1].key, key)
    ensures Missed(all, key, range)
  {
    EntryKey(all, k, part, |part| - 1);
    BeyondAll(all, key);
  }

  lemma BeforeOnly(all: seq<Node>, key: Bytes, part: seq<Node>, range: bool)
    requires Sorted(all) && SliceAt(all, 0, part) && part != [] && Lt(key, part[0].key)
    ensures if range then Found(all, key, 0, range) else Missed(all, key, range)
  {
    EntryKey(all, 0, part, 0);
    BeforeAll(all, key);
  }

  lemma AimedNarrow(s: Stack, t: Tree, d: nat, key: Bytes)
    requires Aiming(s, t, d, false, key)
    ensures StackOk(s, t, d) && Narrow(InOrder(t), Offset(s), |InOrder(Top(s).page)|, key)
  {
  }

  lemma LeafAscends(s: Stack, t: Tree, d: nat)
    requires StackOk(s, t, d) && |s| == d + 1
    ensures KeysAscend(Top(s).page)
  {
    LevelOk(s, t, d);
    TopSlice(s, t, d);
    SliceSorted(InOrder(t), Offset(s), InOrder(Top(s).page));
    PageAscends(Top(s).page, 0);
  }

  /** No exact match on the right leaf: the key is nowhere. */
  lemma NotThere(all: seq<Node>, k: nat, leaf: Tree, key: Bytes, i: int)
    requires Sorted(all) && leaf.LeafPage? && SliceAt(all, k, leaf.nodes) && IsBound(all, key, k + i)
    requires Placed(leaf, key, i)
    requires Narrow(all, k, |leaf.nodes|, key) && (i < |leaf.nodes| ==> leaf.nodes[i].key != key)
    ensures Missed(all, key, false)
  {
    Equal(key, key);
    BoundAbsent(all, key, k + i);
  }

  lemma OnlyPage(s: Stack, t: Tree, d: nat)
    requires StackOk(s, t, d) && |s| == 1
    ensures Offset(s) == 0 && Top(s).page == t && AllLast(s)
  {
  }

  /** The usual loop: first, then next until nothing is found. It meets every entry once, in
      order. */
  method Walk(c: Cursor) returns (out: seq<Node>)
    requires c.Valid() && !c.init
    modifies c
    ensures out == InOrder(c.root) && c.Valid()
  {
    hide InOrder, Sorted, Weak;
    out := [];
    var rc, e := c.First();
    if rc == SUCCESS { assert c.Settled(); }
    while rc == SUCCESS
      invariant c.Valid() && (rc == SUCCESS || rc == MDB_NOTFOUND)
      invariant rc == SUCCESS ==>
              c.Settled() && |out| == c.Pos() < |InOrder(c.root)| &&
              out == InOrder(c.root)[..|out|] && e == InOrder(c.root)[|out|]
      invariant rc != SUCCESS ==> out == InOrder(c.root)
      decreases |InOrder(c.root)| - |out|, rc == SUCCESS
    {
      out := out + [e];
      assert out == InOrder(c.root)[..|out|];
      rc, e := c.Next();
    }
  }

  lemma MoveOkStack(s: Stack, t: Tree, d: nat, ki: int)
    requires StackOk(s, t, d)
    ensures var s' := CursorStack.Pop(s) + [Top(s).(ki := ki)]; StackOk(s', t, d) && Offset(s') == Offset(s)
  {
    MoveOk(s, t, d, ki);
  }

  lemma RootEmpty(t: Tree, d: nat)
    requires Weak(t, d)
    ensures NumKeys(t) == 0 <==> InOrder(t) == []
  {
    if d > 0 { KidNonEmpty(t, d); }
  }

  lemma AimedStack(s: Stack, t: Tree, d: nat, first: bool, key: Bytes)
    requires Aiming(s, t, d, first, key)
    ensures StackOk(s, t, d) && (first ==> Offset(s) == 0)
  {
  }

  lemma RootStack(s: Stack, t: Tree, d: nat)
    requires StackOk(s, t, d) && |s| == 1
    ensures Offset(s) == 0
  {
  }

  /** The leaf on top is not empty, unless the tree is, and holds the entries at its offset. */
  lemma Entry(s: Stack, t: Tree, d: nat)
    requires StackOk(s, t, d) && |s| == d + 1 && NumKeys(t) > 0
    ensures Top(s).page.LeafPage? && Top(s).page.nodes != [] && InOrder(Top(s).page) == Top(s).page.nodes
    ensures SliceAt(InOrder(t), Offset(s), Top(s).page.nodes)
  {
    LevelOk(s, t, d);
    LevelBranch(Top(s).page, 0);
    TopSlice(s, t, d);
  }

  lemma SiblingLeaf(s: Stack, t: Tree, d: nat)
    requires StackOk(s, t, d) && |s| == d + 1
    ensures match Sibling(s, true)
            case None => Offset(s) + |InOrder(Top(s).page)| == |InOrder(t)|
            case Some(r) =>
              StackOk(r, t, d) && |r| == |s| && Top(r).ki == 0 &&
              Offset(r) == Offset(s) + |InOrder(Top(s).page)|
  {
    RightSibling(s, t, d);
  }

  lemma AimPage(s: Stack, t: Tree, d: nat, first: bool, key: Bytes)
    requires Aiming(s, t, d, first, key)
    ensures 0 < |s| <= d + 1 && KeysAscend(Top(s).page)
    ensures Top(s).page.BranchPage? ==> Top(s).page.kids != [] && |Top(s).page.seps| == |Top(s).page.kids|
    ensures Top(s).page.LeafPage? <==> |s| == d + 1
  {
    LevelOk(s, t, d);
    LevelBranch(Top(s).page, d + 1 - |s|);
    TopSlice(s, t, d);
    SliceSorted(InOrder(t), Offset(s), InOrder(Top(s).page));
    PageAscends(Top(s).page, d + 1 - |s|);
  }

  lemma FollowRange(t: Tree, key: Bytes, i: int)
    requires Follows(t, key, i)
    ensures 0 <= i < |t.kids|
  {
  }

  lemma NoSibling(s: Stack, right: bool)
    requires |s| < 2
    ensures Sibling(s, right).None?
  {
  }

  lemma EndSibling(s: Stack, right: bool)
    requires 1 < |s| && AtEnd(Top(CursorStack.Pop(s)), right) && Sibling(CursorStack.Pop(s), right).None?
    ensures Sibling(s, right).None?
  {
  }

  lemma PushedBack(s: Stack)
    requires 1 < |s|
    ensures s == CursorStack.Pop(s) + [Top(s)] && Top(CursorStack.Pop(s)) == s[|s| - 2]
  {
  }
}
