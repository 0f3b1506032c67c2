/** ID2Ls (dirty page lists, ascending by page number) and the list work of a nested commit. */
module DirtyList {

  /** A page number and the address of its in-memory copy. */
  datatype Id2 = Id2(mid: int, mptr: int)

  const UM_SIZE := 0x2_0000
  const UM_MAX := 0x1_FFFF
  const ID_MAX := 0xFFFF_FFFF_FFFF_FFFF

  ghost predicate Asc(s: seq<Id2>) {
    forall i, j :: 0 <= i < j < |s| ==> s[i].mid < s[j].mid
  }

  ghost predicate Positive(s: seq<Id2>) {
    forall i :: 0 <= i < |s| ==> 0 < s[i].mid
  }

  ghost predicate Valid(dl: array<Id2>)
    reads dl
  {
    0 < dl.Length && 0 <= dl[0].mid < dl.Length && Asc(dl[1..dl[0].mid + 1]) && Positive(dl[1..dl[0].mid + 1])
  }

  ghost function Elems(dl: array<Id2>): seq<Id2>
    requires Valid(dl)
    reads dl
  {
    dl[1..dl[0].mid + 1]
  }

  /** The page map a list stands for. */
  ghost function Pages(s: seq<Id2>): map<int, int> {
    if s == [] then map[] else Pages(s[..|s| - 1])[s[|s| - 1].mid := s[|s| - 1].mptr]
  }

  lemma {:induction false} PagesKeys(s: seq<Id2>)
    ensures forall m :: m in Pages(s) <==> exists i :: 0 <= i < |s| && s[i].mid == m
  {
    if s != [] {
      var t, e := s[..|s| - 1], s[|s| - 1];
      PagesKeys(t);
      forall m ensures m in Pages(s) <==> exists i :: 0 <= i < |s| && s[i].mid == m {
        if m in Pages(t) {
          var i :| 0 <= i < |t| && t[i].mid == m;
          assert s[i].mid == m;
        }
        if i :| 0 <= i < |s| && s[i].mid == m {
          if i < |t| { assert t[i].mid == m; }
        }
        if m == e.mid { assert s[|s| - 1].mid == m; }
      }
    }
  }

  /** mdb_mid2l_search: the first slot whose page number is not below the wanted one. */
  method Search(ids: array<Id2>, id: int) returns (cursor: int)
    requires Valid(ids)
    ensures 1 <= cursor <= ids[0].mid + 1
    ensures forall k :: 1 <= k < cursor ==> ids[k].mid < id
    ensures forall k :: cursor <= k <= ids[0].mid ==> ids[k].mid >= id
    ensures id in Pages(Elems(ids)) <==> cursor <= ids[0].mid && ids[cursor].mid == id
  {
    ghost var s := Elems(ids);
    PagesKeys(s);
    assert forall k :: 1 <= k <= |s| ==> ids[k] == s[k - 1];
    hide Pages;
    var base, val, n := 0, 0, ids[0].mid;
    cursor := 1;
    while 0 < n
      invariant 0 <= base <= base + n <= |s|
      invariant forall k :: 0 <= k < base ==> s[k].mid < id
      invariant forall k :: base + n <= k < |s| ==> s[k].mid > id
      invariant if n == |s| then cursor == 1 && val == 0
                else (val > 0 && cursor == base) || (val < 0 && cursor == base + n + 1)
    {
      var pivot := n / 2;
      cursor := base + pivot + 1;
      val := if id < ids[cursor].mid then -1 else if id > ids[cursor].mid then 1 else 0;
      assert ids[cursor] == s[cursor - 1];
      if val < 0 {
        n := pivot;
      } else if val > 0 {
        base := cursor;
        n := n - (pivot + 1);
      } else {
        return;
      }
    }
    if val > 0 {
      cursor := cursor + 1;
    }
  }

  /** Shift slots x and up by one and store the new entry at x. */
  method InsertAt(ids: array<Id2>, x: int, id: Id2, ghost s: seq<Id2>)
    requires |s| + 1 < ids.Length && ids[0].mid == |s| && ids[1..|s| + 1] == s && 1 <= x <= |s| + 1
    modifies ids
    ensures ids[0].mid == |s| + 1
    ensures ids[1..|s| + 2] == s[..x - 1] + [id] + s[x - 1..]
  {
    assert forall k :: 1 <= k <= |s| ==> ids[k] == s[k - 1];
    ids[0] := ids[0].(mid := ids[0].mid + 1);
    var i := ids[0].mid;
    while i > x
      invariant x <= i <= |s| + 1 && ids[0].mid == |s| + 1
      invariant forall k :: 1 <= k < i ==> ids[k] == s[k - 1]
      invariant forall k :: i < k <= |s| + 1 ==> ids[k] == s[k - 2]
    {
      ids[i] := ids[i - 1];
      i := i - 1;
    }
    ids[x] := id;
  }

  lemma AscInsert(s: seq<Id2>, x: int, id: Id2)
    requires Asc(s) && Positive(s) && 0 < id.mid && 0 <= x <= |s|
    requires forall k :: 0 <= k < x ==> s[k].mid < id.mid
    requires forall k :: x <= k < |s| ==> id.mid < s[k].mid
    ensures Asc(s[..x] + [id] + s[x..]) && Positive(s[..x] + [id] + s[x..])
  {
  }

  /** t is s with id inserted. */
  ghost predicate OneMore(s: seq<Id2>, id: Id2, t: seq<Id2>) {
    exists x :: 0 <= x <= |s| && t == s[..x] + [id] + s[x..]
  }

  /** Where the search ended, id can be inserted. */
  lemma RoomAt(ids: array<Id2>, x: int, id: Id2)
    requires Valid(ids) && 0 < id.mid && 1 <= x <= ids[0].mid + 1
    requires forall k :: 1 <= k < x ==> ids[k].mid < id.mid
    requires forall k :: x <= k <= ids[0].mid ==> id.mid < ids[k].mid
    ensures var s := Elems(ids);
            && |s| == ids[0].mid && ids[1..|s| + 1] == s
            && Asc(s[..x - 1] + [id] + s[x - 1..]) && Positive(s[..x - 1] + [id] + s[x - 1..])
            && OneMore(s, id, s[..x - 1] + [id] + s[x - 1..])
  {
    var s := Elems(ids);
    assert forall k :: 0 <= k < |s| ==> s[k] == ids[k + 1];
    AscInsert(s, x - 1, id);
    hide Asc, Positive;
    var y := x - 1;
    assert 0 <= y <= |s| && s[..x - 1] + [id] + s[x - 1..] == s[..y] + [id] + s[y..];
  }

  /** mdb_mid2l_insert: 0 on success, -1 for a duplicate, -2 for a full list. */
  method Insert(ids: array<Id2>, id: Id2) returns (rc: int)
    requires Valid(ids) && ids.Length == UM_SIZE && 0 < id.mid
    modifies ids
    ensures Valid(ids)
    ensures rc == if id.mid in Pages(old(Elems(ids))) then -1 else if old(ids[0].mid) >= UM_MAX then -2 else 0
    ensures rc != 0 ==> Elems(ids) == old(Elems(ids))
    ensures rc == 0 ==> OneMore(old(Elems(ids)), id, Elems(ids))
  {
    hide Pages, OneMore, Asc, Positive;
    var x := Search(ids, id.mid);
    ghost var s := Elems(ids);
    if x <= ids[0].mid && ids[x].mid == id.mid {
      return -1;
    }
    if ids[0].mid >= UM_MAX {
      return -2;
    }
    AboveRest(ids, x, id);
    RoomAt(ids, x, id);
    InsertAt(ids, x, id, s);
    rc := 0;
  }

  lemma AboveRest(ids: array<Id2>, x: int, id: Id2)
    requires Valid(ids) && 1 <= x <= ids[0].mid + 1 && (x <= ids[0].mid ==> ids[x].mid > id.mid)
    ensures forall k :: x <= k <= ids[0].mid ==> id.mid < ids[k].mid
  {
    var s := Elems(ids);
    forall k | x <= k <= ids[0].mid ensures id.mid < ids[k].mid {
      assert s[k - 1] == ids[k] && s[x - 1] == ids[x];
    }
  }

  // ---- merging a child's dirty list into its parent's ----

  /** Union of two lists, read from the end; on equal page numbers b's page wins. */
  function Union(a: seq<Id2>, b: seq<Id2>): (r: seq<Id2>)
    decreases |a| + |b|
  {
    if b == [] then a
    else
      var a', x := if a == [] then [] else a[..|a| - 1], b[|b| - 1];
      if a != [] && x.mid < a[|a| - 1].mid then Union(a', b) + [a[|a| - 1]]
      else if a != [] && x.mid == a[|a| - 1].mid then Union(a', b[..|b| - 1]) + [x]
      else Union(a, b[..|b| - 1]) + [x]
  }

  /** How many page numbers the two lists share, counted from the end. */
  function Common(a: seq<Id2>, b: seq<Id2>): (n: nat)
    decreases |a| + |b|
  {
    if a == [] || b == [] then 0
    else if b[|b| - 1].mid < a[|a| - 1].mid then Common(a[..|a| - 1], b)
    else if b[|b| - 1].mid == a[|a| - 1].mid then 1 + Common(a[..|a| - 1], b[..|b| - 1])
    else Common(a, b[..|b| - 1])
  }

  lemma {:induction false} UnionLength(a: seq<Id2>, b: seq<Id2>)
    ensures |Union(a, b)| == |a| + |b| - Common(a, b)
    ensures |a| <= |Union(a, b)|
    decreases |a| + |b|
  {
    if b != [] {
      if a == [] {
        UnionLength(a, b[..|b| - 1]);
      } else if b[|b| - 1].mid < a[|a| - 1].mid {
        UnionLength(a[..|a| - 1], b);
      } else if b[|b| - 1].mid == a[|a| - 1].mid {
        UnionLength(a[..|a| - 1], b[..|b| - 1]);
      } else {
        UnionLength(a, b[..|b| - 1]);
      }
    }
  }

  ghost predicate AllBelow(s: seq<Id2>, m: int) {
    forall i :: 0 <= i < |s| ==> s[i].mid < m
  }

  lemma {:induction false} UnionBelow(a: seq<Id2>, b: seq<Id2>, m: int)
    requires AllBelow(a, m) && AllBelow(b, m)
    ensures AllBelow(Union(a, b), m)
    decreases |a| + |b|
  {
    if b != [] {
      if a != [] && b[|b| - 1].mid < a[|a| - 1].mid {
        UnionBelow(a[..|a| - 1], b, m);
      } else if a != [] && b[|b| - 1].mid == a[|a| - 1].mid {
        UnionBelow(a[..|a| - 1], b[..|b| - 1], m);
      } else {
        UnionBelow(a, b[..|b| - 1], m);
      }
    }
  }

  lemma {:induction false} UnionAsc(a: seq<Id2>, b: seq<Id2>)
    requires Asc(a) && Asc(b)
    ensures Asc(Union(a, b))
    decreases |a| + |b|
  {
    if b != [] {
      var b', x := b[..|b| - 1], b[|b| - 1];
      if a != [] && x.mid < a[|a| - 1].mid {
        UnionAsc(a[..|a| - 1], b);
        UnionBelow(a[..|a| - 1], b, a[|a| - 1].mid);
      } else if a != [] && x.mid == a[|a| - 1].mid {
        UnionAsc(a[..|a| - 1], b');
        UnionBelow(a[..|a| - 1], b', x.mid);
      } else {
        UnionAsc(a, b');
        UnionBelow(a, b', x.mid);
      }
    }
  }

  lemma PagesAppend(s: seq<Id2>, e: Id2)
    ensures Pages(s + [e]) == Pages(s)[e.mid := e.mptr]
  {
    assert (s + [e])[..|s|] == s;
  }

  lemma OverrideLeft(p: map<int, int>, q: map<int, int>, k: int, v: int)
    requires k !in q
    ensures (p + q)[k := v] == p[k := v] + q
  {
  }

  lemma OverrideRight(p: map<int, int>, q: map<int, int>, k: int, v: int)
    ensures (p + q)[k := v] == p + q[k := v]
  {
  }

  lemma OverrideBoth(p: map<int, int>, q: map<int, int>, k: int, v: int, w: int)
    ensures (p + q)[k := w] == p[k := v] + q[k := w]
  {
  }

  /** As page maps, the union is the parent's list overridden by the child's. */
  lemma {:induction false} UnionPages(a: seq<Id2>, b: seq<Id2>)
    requires Asc(a) && Asc(b)
    ensures Pages(Union(a, b)) == Pages(a) + Pages(b)
    decreases |a| + |b|
  {
    if b != [] {
      var b', x := b[..|b| - 1], b[|b| - 1];
      if a != [] && x.mid < a[|a| - 1].mid {
        var a', e := a[..|a| - 1], a[|a| - 1];
        UnionPages(a', b);
        PagesAppend(Union(a', b), e);
        PagesKeys(b);
        OverrideLeft(Pages(a'), Pages(b), e.mid, e.mptr);
      } else if a != [] && x.mid == a[|a| - 1].mid {
        var a', e := a[..|a| - 1], a[|a| - 1];
        UnionPages(a', b');
        PagesAppend(Union(a', b'), x);
        OverrideBoth(Pages(a'), Pages(b'), x.mid, e.mptr, x.mptr);
      } else {
        UnionPages(a, b');
        PagesAppend(Union(a, b'), x);
        OverrideRight(Pages(a), Pages(b'), x.mid, x.mptr);
      }
    }
  }

  // ---- in place ----

  /** The array `now` during the merge: parent entries 1..x are untouched, the child still
      has y entries to give, and the slots above hold the end of the union. */
  ghost predicate Merging(now: seq<Id2>, a: seq<Id2>, b: seq<Id2>, x: nat, y: nat, i: int) {
    var u := Union(a, b);
    && x <= |a| && y <= |b| && x <= i <= |u| < |now| && now[0].mid == 0
    && (forall p :: 1 <= p <= x ==> now[p] == a[p - 1])
    && (forall p :: i < p <= |u| ==> now[p] == u[p - 1])
    && u[..i] == Union(a[..x], b[..y])
  }

  lemma MergingStart(now: seq<Id2>, a: seq<Id2>, b: seq<Id2>)
    requires |Union(a, b)| < |now| && |a| < |now| && now[0].mid == 0 && now[1..|a| + 1] == a
    ensures Merging(now, a, b, |a|, |b|, |Union(a, b)|)
  {
    var u := Union(a, b);
    UnionLength(a, b);
    assert a[..|a|] == a && b[..|b|] == b && u[..|u|] == u;
    assert forall p :: 1 <= p <= |a| ==> now[p] == now[1..|a| + 1][p - 1];
  }

  /** One round of the merge: a larger parent entry moves up, or the child's entry is
      stored and an equal parent entry dropped. */
  lemma MergingStep(now: seq<Id2>, a: seq<Id2>, b: seq<Id2>, x: nat, y: nat, i: int)
    requires Merging(now, a, b, x, y, i) && 0 < y && 0 < b[y - 1].mid
    ensures 0 < i && x < |now|
    ensures b[y - 1].mid < now[x].mid ==> 0 < x && Merging(now[i := now[x]], a, b, x - 1, y, i - 1)
    ensures b[y - 1].mid == now[x].mid ==> 0 < x && Merging(now[i := b[y - 1]], a, b, x - 1, y - 1, i - 1)
    ensures b[y - 1].mid > now[x].mid ==> Merging(now[i := b[y - 1]], a, b, x, y - 1, i - 1)
  {
    var u := Union(a, b);
    var v := Union(a[..x], b[..y]);
    assert b[..y][..y - 1] == b[..y - 1];
    if 0 < x { assert a[..x][..x - 1] == a[..x - 1]; }
    assert |v| == i && u[i - 1] == v[i - 1] && u[..i - 1] == v[..i - 1];
    if 0 < x && b[y - 1].mid < a[x - 1].mid {
      UnionLength(a[..x - 1], b[..y]);
    } else if 0 < x && b[y - 1].mid == a[x - 1].mid {
      UnionLength(a[..x - 1], b[..y - 1]);
    } else {
      UnionLength(a[..x], b[..y - 1]);
    }
  }

  lemma MergingDone(now: seq<Id2>, a: seq<Id2>, b: seq<Id2>, x: nat, i: int)
    requires Merging(now, a, b, x, 0, i)
    ensures i == x && now[1..|Union(a, b)| + 1] == Union(a, b)
  {
    var u := Union(a, b);
    assert b[..0] == [] && u[..i] == a[..x];
    assert forall p :: 0 <= p < i ==> u[p] == u[..i][p];
  }

  /** The merge loop of a nested commit: slot 0 of dst has been zeroed, x and len are the
      lengths of the parent's list and of the result. */
  method MergeDirty(dst: array<Id2>, src: array<Id2>, x0: int, len: int, ghost a: seq<Id2>)
    requires 0 <= x0 < dst.Length && dst[0].mid == 0 && a == dst[1..x0 + 1]
    requires Valid(src) && dst != src && len == |Union(a, Elems(src))| < dst.Length
    modifies dst
    ensures dst[0].mid == len && dst[1..len + 1] == Union(a, Elems(src))
  {
    hide Merging, Union, Asc, Positive;
    ghost var b := Elems(src);
    var x := x0;
    MergingStart(dst[..], a, b);
    ChildEntries(src);
    var y, i := src[0].mid, len;
    while y != 0
      invariant 0 <= y <= |b| && 0 <= x
      invariant Merging(dst[..], a, b, x, y, i)
    {
      x, i := ShiftLarger(dst, src[y].mid, x, y, i, a, b);
      x := Store(dst, src[y], x, y, i, a, b);
      i, y := i - 1, y - 1;
    }
    MergingDone(dst[..], a, b, x, i);
    assert i == x;
    dst[0] := dst[0].(mid := len);
  }

  lemma ChildEntries(src: array<Id2>)
    requires Valid(src)
    ensures var b := Elems(src); |b| == src[0].mid && forall k :: 1 <= k <= |b| ==> src[k] == b[k - 1] && 0 < src[k].mid
  {
  }

  /** Store the child's entry; the parent's page of the same number is given up. */
  method Store(dst: array<Id2>, e: Id2, x0: nat, ghost y: nat, i: int, ghost a: seq<Id2>, ghost b: seq<Id2>)
    returns (x: nat)
    requires Merging(dst[..], a, b, x0, y, i) && 0 < y <= |b| && e == b[y - 1] && 0 < e.mid
    requires x0 < dst.Length && e.mid >= dst[x0].mid
    modifies dst
    ensures Merging(dst[..], a, b, x, y - 1, i - 1)
  {
    MergingStep(dst[..], a, b, x0, y, i);
    ghost var now := dst[..];
    x := x0;
    if e.mid == dst[x].mid {
      x := x - 1;
    }
    dst[i] := e;
    assert dst[..] == now[i := e];
  }

  method ShiftLarger(dst: array<Id2>, yp: int, x0: nat, ghost y: nat, i0: int, ghost a: seq<Id2>, ghost b: seq<Id2>)
    returns (x: nat, i: int)
    requires Merging(dst[..], a, b, x0, y, i0) && 0 < y && yp == b[y - 1].mid && 0 < yp
    modifies dst
    ensures Merging(dst[..], a, b, x, y, i) && x < dst.Length && yp >= dst[x].mid
  {
    x, i := x0, i0;
    MergingStep(dst[..], a, b, x, y, i);
    hide Merging;
    hide Union;
    while yp < dst[x].mid
      invariant Merging(dst[..], a, b, x, y, i) && x < dst.Length && y <= |b|
      decreases x
    {
      MergingStep(dst[..], a, b, x, y, i);
      ghost var now := dst[..];
      dst[i] := dst[x];
      assert dst[..] == now[i := now[x]];
      x, i := x - 1, i - 1;
    }
  }

  lemma {:induction false} UnionPositive(a: seq<Id2>, b: seq<Id2>)
    requires Positive(a) && Positive(b)
    ensures Positive(Union(a, b))
    decreases |a| + |b|
  {
    if b != [] {
      if a != [] && b[|b| - 1].mid < a[|a| - 1].mid {
        UnionPositive(a[..|a| - 1], b);
      } else if a != [] && b[|b| - 1].mid == a[|a| - 1].mid {
        UnionPositive(a[..|a| - 1], b[..|b| - 1]);
      } else {
        UnionPositive(a, b[..|b| - 1]);
      }
    }
  }

  /** Skip parent entries above the child's page yp. */
  method SkipLarger(dst: array<Id2>, yp: int, i0: int, ghost y: nat, ghost a: seq<Id2>, ghost b: seq<Id2>)
    returns (i: int)
    requires 0 <= i0 <= |a| < dst.Length && 0 < y <= |b| && yp == b[y - 1].mid && 0 < yp && dst[0].mid == 0
    requires forall p :: 1 <= p <= |a| ==> dst[p] == a[p - 1]
    ensures 0 <= i <= i0 && dst[i].mid <= yp && Common(a[..i], b[..y]) == Common(a[..i0], b[..y])
  {
    hide Common;
    i := i0;
    while yp < dst[i].mid
      invariant 0 <= i <= i0 && Common(a[..i], b[..y]) == Common(a[..i0], b[..y])
      decreases i
    {
      CommonStep(a, b, i, y);
      i := i - 1;
    }
  }

  /** Child pages above the parent's last page are not looked at. */
  method StartCount(dst: array<Id2>, src: array<Id2>, x: int, ghost a: seq<Id2>) returns (y: int)
    requires 0 <= x < dst.Length && dst[0].mid == 0 && a == dst[1..x + 1] && Asc(a) && Positive(a) && Valid(src)
    ensures 0 <= y <= |Elems(src)| && |a| == x && forall p :: 1 <= p <= x ==> dst[p] == a[p - 1]
    ensures forall p :: 1 <= p <= |Elems(src)| ==> src[p] == Elems(src)[p - 1] && 0 < src[p].mid
    ensures Common(a, Elems(src)) == Common(a[..x], Elems(src)[..y])
    ensures |Union(a, Elems(src))| == x + src[0].mid - Common(a, Elems(src)) && |Elems(src)| == src[0].mid
  {
    hide Union, Common;
    ghost var b := Elems(src);
    y := Search(src, dst[x].mid + 1);
    y := y - 1;
    assert a[..x] == a;
    assert forall p :: 1 <= p <= x ==> dst[p] == a[p - 1];
    assert forall p :: 1 <= p <= |b| ==> src[p] == b[p - 1] && 0 < src[p].mid;
    CommonPrefix(a, b, y);
    UnionLength(a, b);
  }

  /** The scan that finds the length of the merge without merging. Slot 0 of dst holds 0. */
  method CountUnion(dst: array<Id2>, src: array<Id2>, x: int, ghost a: seq<Id2>) returns (len: int)
    requires 0 <= x < dst.Length && dst[0].mid == 0 && a == dst[1..x + 1] && Asc(a) && Positive(a)
    requires Valid(src)
    ensures len == |Union(a, Elems(src))|
  {
    hide Common, Union, Asc, Positive;
    ghost var b := Elems(src);
    len := x + src[0].mid;
    var y := StartCount(dst, src, x, a);
    var i := x;
    while y != 0 && i != 0
      invariant 0 <= i <= x && 0 <= y <= |b|
      invariant Common(a, b) == x + |b| - len + Common(a[..i], b[..y])
    {
      var yp := src[y].mid;
      i := SkipLarger(dst, yp, i, y, a, b);
      CommonStep(a, b, i, y);
      if yp == dst[i].mid {
        i := i - 1;
        len := len - 1;
      }
      y := y - 1;
    }
    CommonEmpty(a, b, i, y);
  }

  lemma CommonEmpty(a: seq<Id2>, b: seq<Id2>, i: nat, y: nat)
    requires i <= |a| && y <= |b| && (i == 0 || y == 0)
    ensures Common(a[..i], b[..y]) == 0
  {
  }

  lemma CommonStep(a: seq<Id2>, b: seq<Id2>, i: nat, y: nat)
    requires i <= |a| && 0 < y <= |b|
    ensures i == 0 ==> Common(a[..i], b[..y]) == 0 == Common(a[..i], b[..y - 1])
    ensures 0 < i && b[y - 1].mid < a[i - 1].mid ==> Common(a[..i], b[..y]) == Common(a[..i - 1], b[..y])
    ensures 0 < i && b[y - 1].mid == a[i - 1].mid ==> Common(a[..i], b[..y]) == 1 + Common(a[..i - 1], b[..y - 1])
    ensures 0 < i && b[y - 1].mid > a[i - 1].mid ==> Common(a[..i], b[..y]) == Common(a[..i], b[..y - 1])
  {
    assert b[..y][..y - 1] == b[..y - 1];
    if 0 < i { assert a[..i][..i - 1] == a[..i - 1]; }
  }

  /** Child pages above the parent's last page share nothing with the parent. */
  lemma {:induction false} CommonPrefix(a: seq<Id2>, b: seq<Id2>, y: nat)
    requires y <= |b| && forall k :: y <= k < |b| ==> a == [] || b[k].mid > a[|a| - 1].mid
    ensures Common(a, b) == Common(a, b[..y])
    decreases |b|
  {
    if y < |b| {
      var b' := b[..|b| - 1];
      CommonPrefix(a, b', y);
      assert b'[..y] == b[..y];
    } else {
      assert b[..y] == b;
    }
  }

  /** Zero the count, measure, merge. */
  method MeasureAndMerge(dst: array<Id2>, src: array<Id2>, ghost a: seq<Id2>)
    requires |a| < dst.Length && dst[0].mid == |a| && a == dst[1..|a| + 1] && Asc(a) && Positive(a)
    requires Valid(src) && dst != src && |Union(a, Elems(src))| < dst.Length
    modifies dst
    ensures dst[0].mid == |Union(a, Elems(src))| && dst[1..dst[0].mid + 1] == Union(a, Elems(src))
  {
    var x := dst[0].mid;
    dst[0] := dst[0].(mid := 0);
    var len := CountUnion(dst, src, x, a);
    hide Union;
    hide Asc;
    MergeDirty(dst, src, x, len, a);
  }

  lemma UnionFacts(a: seq<Id2>, b: seq<Id2>)
    requires Asc(a) && Asc(b) && Positive(a) && Positive(b)
    ensures Asc(Union(a, b)) && Positive(Union(a, b)) && |Union(a, b)| <= |a| + |b|
    ensures Pages(Union(a, b)) == Pages(a) + Pages(b)
  {
    UnionAsc(a, b);
    UnionPositive(a, b);
    UnionPages(a, b);
    UnionLength(a, b);
  }

  /** The merge of a nested commit: as page maps, the child's pages override the parent's. */
  method MergeLists(dst: array<Id2>, src: array<Id2>)
    requires Valid(dst) && Valid(src) && dst != src && dst[0].mid + src[0].mid < dst.Length
    modifies dst
    ensures Valid(dst) && Elems(dst) == Union(old(Elems(dst)), Elems(src))
    ensures Pages(Elems(dst)) == Pages(old(Elems(dst))) + Pages(Elems(src))
  {
    ghost var a := Elems(dst);
    UnionFacts(a, Elems(src));
    hide Union;
    hide Pages;
    hide Asc;
    hide Positive;
    MeasureAndMerge(dst, src, a);
  }
}
