/** ID lists: arrays whose slot 0 holds the count, sorted descending (IDL),
    and arrays of id/pointer pairs sorted ascending (ID2L). */
module Midl {

  /** MDB_ID is a 64-bit size_t: every id lies in 0..ID_MAX. */
  type Id = int

  const ID_MAX: Id := 0xFFFF_FFFF_FFFF_FFFF

  const SUCCESS := 0
  const ENOMEM := 12

  ghost predicate Ids(s: seq<Id>) {
    forall k :: 0 <= k < |s| ==> 0 <= s[k] <= ID_MAX
  }

  ghost predicate ValidIdl(ids: array<Id>)
    reads ids
  {
    0 < ids.Length && 0 <= ids[0] < ids.Length && Ids(ids[1..ids[0] + 1])
  }

  /** The ids in the list, without the count slot. */
  ghost function Elems(ids: array<Id>): (s: seq<Id>)
    requires ValidIdl(ids)
    reads ids
  {
    ids[1..ids[0] + 1]
  }

  ghost predicate Desc(s: seq<Id>) {
    forall i, j :: 0 <= i < j < |s| ==> s[i] >= s[j]
  }

  ghost predicate StrictDesc(s: seq<Id>) {
    forall i, j :: 0 <= i < j < |s| ==> s[i] > s[j]
  }

  /** Binary search. The list is descending, so the result is the first slot whose
      id is not above the wanted one. */
  method Search(ids: array<Id>, id: Id) returns (cursor: nat)
    requires ValidIdl(ids) && Desc(Elems(ids))
    ensures 1 <= cursor <= ids[0] + 1
    ensures forall k :: 1 <= k < cursor ==> ids[k] >= id
    ensures forall k :: cursor <= k <= ids[0] ==> ids[k] <= id
    ensures id in Elems(ids) <==> cursor <= ids[0] && ids[cursor] == id
  {
    ghost var s := Elems(ids);
    assert forall k :: 1 <= k <= |s| ==> ids[k] == s[k - 1];
    var base, val, n := 0, 0, ids[0];
    cursor := 1;
    while 0 < n
      invariant 0 <= base <= base + n <= |s|
      invariant forall k :: 0 <= k < base ==> s[k] > id
      invariant forall k :: base + n <= k < |s| ==> s[k] < id
      invariant if n == |s| then cursor == 1 && val == 0
                else (val > 0 && cursor == base) || (val < 0 && cursor == base + n + 1)
    {
      var pivot := n / 2;
      cursor := base + pivot + 1;
      val := if ids[cursor] < id then -1 else if ids[cursor] > id then 1 else 0;
      assert ids[cursor] == s[cursor - 1];
      if val < 0 {
        n := pivot;
      } else if val > 0 {
        base := cursor;
        n := n - (pivot + 1);
      } else {
        return;
      }
    }
    if val > 0 {
      cursor := cursor + 1;
    }
  }

  /** Tail-first merge of two lists: the meaning of mdb_midl_xmerge. */
  function Merge(a: seq<Id>, b: seq<Id>): (r: seq<Id>)
    ensures |r| == |a| + |b|
    decreases |a| + |b|
  {
    if b == [] then a
    else if a != [] && a[|a| - 1] < b[|b| - 1] then Merge(a[..|a| - 1], b) + [a[|a| - 1]]
    else Merge(a, b[..|b| - 1]) + [b[|b| - 1]]
  }

  lemma {:induction false} MergeElements(a: seq<Id>, b: seq<Id>)
    ensures multiset(Merge(a, b)) == multiset(a) + multiset(b)
    decreases |a| + |b|
  {
    if b == [] {
      assert multiset(b) == multiset{};
    } else if a != [] && a[|a| - 1] < b[|b| - 1] {
      var a', x := a[..|a| - 1], a[|a| - 1];
      assert Merge(a, b) == Merge(a', b) + [x];
      hide Merge;
      MergeElements(a', b);
      OneMore(a', b, Merge(a', b), x, a);
    } else {
      var b', x := b[..|b| - 1], b[|b| - 1];
      assert Merge(a, b) == Merge(a, b') + [x];
      hide Merge;
      MergeElements(a, b');
      OneMoreRight(b', a, Merge(a, b'), x, b);
    }
  }

  lemma OneMore(s: seq<Id>, u: seq<Id>, m: seq<Id>, x: Id, t: seq<Id>)
    requires t == s + [x] && multiset(m) == multiset(s) + multiset(u)
    ensures multiset(m + [x]) == multiset(t) + multiset(u)
  {
  }

  lemma OneMoreRight(s: seq<Id>, u: seq<Id>, m: seq<Id>, x: Id, t: seq<Id>)
    requires t == s + [x] && multiset(m) == multiset(u) + multiset(s)
    ensures multiset(m + [x]) == multiset(u) + multiset(t)
  {
  }

  lemma SeqIn(s: seq<Id>, t: seq<Id>, u: seq<Id>, x: Id)
    requires multiset(s) == multiset(t) + multiset(u)
    ensures x in s <==> x in t || x in u
  {
    assert x in s <==> x in multiset(s);
  }

  lemma DescAbove(s: seq<Id>, x: Id)
    requires Desc(s) && (s == [] || s[|s| - 1] >= x)
    ensures forall y :: y in s ==> y >= x
  {
  }

  lemma DescAppend(s: seq<Id>, x: Id)
    requires Desc(s) && forall y :: y in s ==> y >= x
    ensures Desc(s + [x])
  {
    forall i | 0 <= i < |s| ensures s[i] >= x { assert s[i] in s; }
  }

  lemma {:induction false} MergeDesc(a: seq<Id>, b: seq<Id>)
    requires Desc(a) && Desc(b)
    ensures Desc(Merge(a, b))
    decreases |a| + |b|
  {
    if b == [] {
    } else {
      var fromA := a != [] && a[|a| - 1] < b[|b| - 1];
      var a', b' := if fromA then a[..|a| - 1] else a, if fromA then b else b[..|b| - 1];
      var last := if fromA then a[|a| - 1] else b[|b| - 1];
      MergeDesc(a', b');
      MergeElements(a', b');
      DescAbove(a', last);
      DescAbove(b', last);
      var m := Merge(a', b');
      forall y | y in m ensures y >= last { SeqIn(m, a', b', y); }
      DescAppend(m, last);
    }
  }

  lemma MergeIds(a: seq<Id>, b: seq<Id>)
    requires Ids(a) && Ids(b)
    ensures Ids(Merge(a, b))
  {
    var r := Merge(a, b);
    MergeElements(a, b);
    forall k | 0 <= k < |r| ensures 0 <= r[k] <= ID_MAX { SeqIn(r, a, b, r[k]); }
  }

  /** Two strictly descending lists without a common id merge into a strictly descending one. */
  lemma MergeStrict(a: seq<Id>, b: seq<Id>)
    requires StrictDesc(a) && StrictDesc(b) && forall x :: x in a ==> x !in b
    ensures StrictDesc(Merge(a, b))
    ensures forall x :: x in Merge(a, b) <==> x in a || x in b
  {
    var r := Merge(a, b);
    MergeDesc(a, b);
    MergeElements(a, b);
    forall x ensures x in r <==> x in a || x in b { SeqIn(r, a, b, x); }
    forall i, j | 0 <= i < j < |r| ensures r[i] > r[j] {
      if r[i] == r[j] {
        Twice(r, i, j);
        StrictOnce(a, r[i]);
        StrictOnce(b, r[i]);
      }
    }
  }

  lemma Twice(r: seq<Id>, i: nat, j: nat)
    requires i < j < |r| && r[i] == r[j]
    ensures multiset(r)[r[i]] >= 2
  {
    assert r == r[..j] + r[j..];
    assert r[i] in multiset(r[..j]) by { assert r[..j][i] == r[i]; }
    assert r[j] in multiset(r[j..]) by { assert r[j..][0] == r[j]; }
  }

  lemma {:induction false} StrictOnce(s: seq<Id>, x: Id)
    requires StrictDesc(s)
    ensures multiset(s)[x] == if x in s then 1 else 0
  {
    if s == [] {
    } else {
      var t := s[..|s| - 1];
      assert s == t + [s[|s| - 1]];
      StrictOnce(t, x);
    }
  }

  /** The array `now` while the lists `a` and `b` are merged into it: the first j ids of a
      are untouched, the first i ids of b are still to come, and the slots above i + j
      hold the end of the merge. */
  ghost predicate Merging(now: seq<Id>, a: seq<Id>, b: seq<Id>, j: nat, i: nat) {
    var r := Merge(a, b);
    && j <= |a| && i <= |b| && |r| < |now| && now[0] == ID_MAX
    && (forall p :: 1 <= p <= j ==> now[p] == a[p - 1])
    && (forall p :: i + j < p <= |r| ==> now[p] == r[p - 1])
    && r[..i + j] == Merge(a[..j], b[..i])
  }

  lemma MergingStart(now: seq<Id>, a: seq<Id>, b: seq<Id>)
    requires |a| + |b| < |now| && now[0] == ID_MAX && now[1..|a| + 1] == a
    ensures Merging(now, a, b, |a|, |b|)
  {
    assert a[..|a|] == a && b[..|b|] == b && Merge(a, b)[..|a| + |b|] == Merge(a, b);
    assert forall p :: 1 <= p <= |a| ==> now[p] == now[1..|a| + 1][p - 1];
  }

  lemma MergingStep(now: seq<Id>, a: seq<Id>, b: seq<Id>, j: nat, i: nat)
    requires Merging(now, a, b, j, i) && 0 < i && b[i - 1] <= ID_MAX
    ensures now[j] < b[i - 1] ==> 0 < j && Merging(now[i + j := now[j]], a, b, j - 1, i)
    ensures now[j] >= b[i - 1] ==> Merging(now[i + j := b[i - 1]], a, b, j, i - 1)
  {
    var r := Merge(a, b);
    assert b[..i][..i - 1] == b[..i - 1];
    assert r[..i + j - 1] == r[..i + j][..i + j - 1];
    assert r[i + j - 1] == r[..i + j][i + j - 1];
    if 0 < j { assert a[..j][..j - 1] == a[..j - 1]; }
  }

  lemma MergingDone(now: seq<Id>, a: seq<Id>, b: seq<Id>, j: nat)
    requires Merging(now, a, b, j, 0)
    ensures now[1..|a| + |b| + 1] == Merge(a, b)
  {
    var r := Merge(a, b);
    assert b[..0] == [] && r[..j] == a[..j];
    assert forall p :: 0 <= p < j ==> r[p] == r[..j][p];
    assert forall p :: 1 <= p <= |r| ==> now[p] == r[p - 1];
  }

  /** The inner scan of the merge: ids of idl below merge[i] move up to slot i + j. */
  method ShiftSmaller(idl: array<Id>, mergeId: Id, i: nat, j0: nat, ghost a: seq<Id>, ghost b: seq<Id>)
    returns (j: nat)
    requires 0 < i <= |b| && mergeId == b[i - 1] <= ID_MAX && |a| + |b| < idl.Length
    requires Merging(idl[..], a, b, j0, i)
    modifies idl
    ensures j <= |a| && Merging(idl[..], a, b, j, i) && idl[j] >= mergeId
    ensures forall p :: |a| + |b| < p < idl.Length ==> idl[p] == old(idl[p])
  {
    j := j0;
    var k := i + j;
    var oldId := idl[j];
    while oldId < mergeId
      invariant k == i + j && j <= |a| && oldId == idl[j]
      invariant Merging(idl[..], a, b, j, i)
      invariant forall p :: |a| + |b| < p < idl.Length ==> idl[p] == old(idl[p])
      decreases j
    {
      hide Merging;
      MergingStep(idl[..], a, b, j, i);
      ghost var now := idl[..];
      idl[k] := oldId;
      assert idl[..] == now[k := oldId];
      k := k - 1;
      j := j - 1;
      oldId := idl[j];
    }
  }

  /** A list that starts at slot off. */
  ghost predicate ListAt(ids: array<Id>, off: nat)
    reads ids
  {
    off < ids.Length && 0 <= ids[off] && off + ids[off] < ids.Length && Ids(ids[off + 1..off + ids[off] + 1])
  }

  ghost function ElemsAt(ids: array<Id>, off: nat): (r: seq<Id>)
    requires ListAt(ids, off)
    reads ids
    ensures |r| == ids[off]
  {
    ids[off + 1..off + ids[off] + 1]
  }

  /** In-place tail merge of a second list into idl. Slot 0 of idl serves as a sentinel above
      every id while the scan runs. The second list may stand behind the room for the result in
      the same block. */
  method XMerge(idl: array<Id>, merge: array<Id>, off: nat)
    requires ValidIdl(idl) && ListAt(merge, off)
    requires idl[0] + merge[off] < if idl == merge then off else idl.Length
    modifies idl
    ensures ValidIdl(idl)
    ensures Elems(idl) == Merge(old(Elems(idl)), old(ElemsAt(merge, off)))
  {
    hide Merging, Merge, Ids;
    ghost var a, b := Elems(idl), ElemsAt(merge, off);
    var i: nat, j: nat := merge[off], idl[0];
    var total := i + j;
    StandsAt(merge, off);
    BelowMax(b);
    idl[0] := ID_MAX;
    MergingStart(idl[..], a, b);
    while 0 < i
      invariant j <= |a| && i <= |b|
      invariant Merging(idl[..], a, b, j, i)
      invariant Stands(merge, off, b)
    {
      StandsLast(merge, off, b, i);
      j := ShiftSmaller(idl, merge[off + i], i, j, a, b);
      StandsLast(merge, off, b, i);
      StoreNext(idl, merge[off + i], i, j, a, b);
      i := i - 1;
    }
    MergingDone(idl[..], a, b, j);
    MergeIds(a, b);
    idl[0] := total;
  }

  /** Store the next id of the second list. */
  method StoreNext(idl: array<Id>, mergeId: Id, i: nat, j: nat, ghost a: seq<Id>, ghost b: seq<Id>)
    requires 0 < i <= |b| && mergeId == b[i - 1] <= ID_MAX && j <= |a| && |a| + |b| < idl.Length
    requires Merging(idl[..], a, b, j, i) && idl[j] >= mergeId
    modifies idl
    ensures Merging(idl[..], a, b, j, i - 1)
    ensures forall p :: |a| + |b| < p < idl.Length ==> idl[p] == old(idl[p])
  {
    hide Merging;
    MergingStep(idl[..], a, b, j, i);
    ghost var now := idl[..];
    idl[i + j] := mergeId;
    assert idl[..] == now[i + j := mergeId];
  }

  /** The ids of b are in the slots behind off. */
  ghost predicate Stands(ids: array<Id>, off: nat, b: seq<Id>)
    reads ids
  {
    off + |b| < ids.Length && forall p, q :: 0 <= p < |b| && q == off + 1 + p ==> ids[q] == b[p]
  }

  lemma StandsAt(ids: array<Id>, off: nat)
    requires ListAt(ids, off)
    ensures Stands(ids, off, ElemsAt(ids, off))
  {
  }

  lemma StandsLast(ids: array<Id>, off: nat, b: seq<Id>, i: nat)
    requires Stands(ids, off, b) && 0 < i <= |b|
    ensures ids[off + i] == b[i - 1]
  {
    var p, q := i - 1, off + i;
    assert ids[q] == b[p];
  }

  lemma BelowMax(b: seq<Id>)
    requires Ids(b)
    ensures forall k :: 0 <= k < |b| ==> b[k] <= ID_MAX
  {
  }

  /** mdb_midl_need: room for num more ids, in the same array or a larger one. */
  method Need(ids: array<Id>, num: nat, canGrow: bool) returns (rc: int, out: array<Id>)
    requires ValidIdl(ids)
    ensures ValidIdl(out) && Elems(out) == Elems(ids) && (out == ids || fresh(out))
    ensures rc == SUCCESS ==> out[0] + num < out.Length
    ensures rc == SUCCESS <==> canGrow || ids[0] + num < ids.Length
    ensures rc == SUCCESS || (rc == ENOMEM && out == ids)
  {
    var n := num + ids[0];
    if n > ids.Length - 1 {
      if !canGrow { return ENOMEM, ids; }
      var total := n + n / 4 + (256 + 2);
      total := total - total % 256;              // & -256
      out := new Id[total - 1](k requires 0 <= k reads ids => if k < ids.Length then ids[k] else 0);
      assert out[1..out[0] + 1] == ids[1..ids[0] + 1];
      return SUCCESS, out;
    }
    return SUCCESS, ids;
  }
}
