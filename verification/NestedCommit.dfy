/** The page-list work of mdb_txn_commit for a nested transaction. */
module NestedCommit {
  import opened DirtyList

  /** Spill lists hold page numbers shifted left by one, descending; a set low bit marks
      a deleted entry. */
  ghost predicate StrictDesc(s: seq<int>) {
    forall i, j :: 0 <= i < j < |s| ==> s[i] > s[j]
  }

  ghost predicate Spill(s: seq<int>) {
    StrictDesc(s) && forall i :: 0 <= i < |s| ==> 0 <= s[i] < ID_MAX
  }

  /** The live entries of s whose page is not listed in d, in order. */
  function Keep(s: seq<int>, d: seq<Id2>): (r: seq<int>) {
    if s == [] then []
    else Keep(s[..|s| - 1], d) +
         if s[|s| - 1] % 2 == 1 || Listed(d, s[|s| - 1]) then [] else [s[|s| - 1]]
  }

  /** The shifted number pn names a page of the list d. */
  predicate Listed(d: seq<Id2>, pn: int) {
    exists i :: 0 <= i < |d| && 2 * d[i].mid == pn
  }

  /** The pages of a spill list. */
  ghost function SpillPages(s: seq<int>): set<int> {
    set i | 0 <= i < |s| && s[i] % 2 == 0 :: s[i] / 2
  }

  lemma {:induction false} KeepConcat(s: seq<int>, t: seq<int>, d: seq<Id2>)
    ensures Keep(s + t, d) == Keep(s, d) + Keep(t, d)
  {
    if t == [] {
      assert s + t == s;
    } else {
      var t' := t[..|t| - 1];
      KeepConcat(s, t', d);
      assert (s + t)[..|s + t| - 1] == s + t';
    }
  }

  lemma {:induction false} KeepPages(s: seq<int>, d: seq<Id2>)
    ensures SpillPages(Keep(s, d)) == SpillPages(s) - Pages(d).Keys
  {
    if s != [] {
      var s', e := s[..|s| - 1], s[|s| - 1];
      KeepPages(s', d);
      SpillPagesAppend(s', e);
      SpillPagesAppend(Keep(s', d), e);
      PagesKeys(d);
      assert s == s' + [e];
      assert e % 2 == 0 ==> (Listed(d, e) <==> e / 2 in Pages(d));
      if e % 2 == 0 && !Listed(d, e) {
        assert Keep(s, d) == Keep(s', d) + [e];
      } else {
        assert Keep(s, d) == Keep(s', d);
      }
    }
  }

  lemma SpillPagesAppend(s: seq<int>, e: int)
    ensures SpillPages(s + [e]) == SpillPages(s) + if e % 2 == 0 then {e / 2} else {}
  {
    var t := s + [e];
    forall p ensures p in SpillPages(t) <==> p in SpillPages(s) || (e % 2 == 0 && p == e / 2) {
      if p in SpillPages(s) {
        var i :| 0 <= i < |s| && s[i] % 2 == 0 && s[i] / 2 == p;
        assert t[i] == s[i];
      }
      if p in SpillPages(t) {
        var i :| 0 <= i < |t| && t[i] % 2 == 0 && t[i] / 2 == p;
        if i < |s| { assert t[i] == s[i]; }
      }
      if e % 2 == 0 && p == e / 2 { assert t[|s|] == e; }
    }
  }

  /** The spill list after the marking loop has seen the first i pages of the child; p is
      the list before, from slot 1. Entries up to slot x are still larger than all those
      pages, entries up to slot y are unmarked. */
  ghost predicate Marking(now: seq<int>, p: seq<int>, d: seq<Id2>, i: int, x: int, y: int) {
    && 0 <= i <= |d| && 0 <= x <= y < |p| <= |now| && now[0] == ID_MAX
    && (forall k :: 1 <= k <= y ==> now[k] == p[k])
    && (forall k :: 1 <= k <= x && 0 < i ==> p[k] > 2 * d[i - 1].mid)
    && (forall k :: x < k < |p| && i < |d| ==> p[k] < 2 * d[i].mid)
    && (forall k :: x < k <= y ==> !Listed(d[..i], p[k]))
    && (forall k :: y < k < |p| ==> now[k] == if Listed(d[..i], p[k]) then 1 else p[k])
  }

  /** After all child pages: no entry up to y is listed, the others are marked iff listed. */
  ghost predicate Marked(now: seq<int>, p: seq<int>, d: seq<Id2>, y: int) {
    && 0 <= y < |p| <= |now|
    && (forall k :: 1 <= k <= y ==> now[k] == p[k] && !Listed(d, p[k]))
    && (forall k :: y < k < |p| ==> now[k] == if Listed(d, p[k]) then 1 else p[k])
  }

  lemma ListedStep(d: seq<Id2>, i: nat, pn: int)
    requires i < |d|
    ensures Listed(d[..i + 1], pn) <==> Listed(d[..i], pn) || pn == 2 * d[i].mid
  {
    var u, v := d[..i + 1], d[..i];
    if Listed(u, pn) {
      var k :| 0 <= k < |u| && 2 * u[k].mid == pn;
      if k < i { assert v[k] == u[k]; }
    }
    if Listed(v, pn) {
      var k :| 0 <= k < |v| && 2 * v[k].mid == pn;
      assert u[k] == v[k];
    }
    if pn == 2 * d[i].mid { assert u[i] == d[i]; }
  }

  lemma NotListed(d: seq<Id2>, i: nat, pn: int)
    requires Asc(d) && i <= |d| && (0 < i ==> pn > 2 * d[i - 1].mid)
    ensures !Listed(d[..i], pn)
  {
  }

  lemma MarkingDown(now: seq<int>, p: seq<int>, d: seq<Id2>, i: nat, x: int, y: int)
    requires Asc(d) && i < |d| && Marking(now, p, d, i, x, y) && now[x] < 2 * d[i].mid <= ID_MAX
    ensures 0 < x && Marking(now, p, d, i, x - 1, y)
  {
    NotListed(d, i, p[x]);
  }

  lemma MarkingHit(now: seq<int>, p: seq<int>, d: seq<Id2>, i: nat, x: int, y: int)
    requires 0 < |p| && Spill(p[1..]) && Asc(d) && i < |d| && Marking(now, p, d, i, x, y)
    requires now[x] == 2 * d[i].mid < ID_MAX
    ensures 0 < x && Marking(now[x := 1], p, d, i + 1, x - 1, x - 1)
  {
    assert forall k :: 1 <= k < |p| ==> p[k] == p[1..][k - 1];
    forall k | 1 <= k < |p| ensures Listed(d[..i + 1], p[k]) <==> Listed(d[..i], p[k]) || p[k] == 2 * d[i].mid {
      ListedStep(d, i, p[k]);
    }
  }

  lemma MarkingMiss(now: seq<int>, p: seq<int>, d: seq<Id2>, i: nat, x: int, y: int)
    requires 0 < |p| && Spill(p[1..]) && Asc(d) && i < |d| && Marking(now, p, d, i, x, y) && now[x] > 2 * d[i].mid
    ensures Marking(now, p, d, i + 1, x, y)
  {
    assert forall k :: 1 <= k < |p| ==> p[k] == p[1..][k - 1];
    forall k | 1 <= k < |p| ensures Listed(d[..i + 1], p[k]) <==> Listed(d[..i], p[k]) || p[k] == 2 * d[i].mid {
      ListedStep(d, i, p[k]);
    }
  }

  lemma MarkingDone(now: seq<int>, p: seq<int>, d: seq<Id2>, x: int, y: int)
    requires Asc(d) && Marking(now, p, d, |d|, x, y)
    ensures Marked(now, p, d, y)
  {
    assert d[..|d|] == d;
    forall k | 1 <= k <= x ensures !Listed(d, p[k]) { NotListed(d, |d|, p[k]); }
  }

  /** One page of the child against the spill list. */
  method MarkOne(pspill: array<int>, pn: int, x0: int, y0: int, ghost p: seq<int>, ghost d: seq<Id2>, ghost i: nat)
    returns (x: int, y: int)
    requires 0 < |p| && Spill(p[1..]) && Asc(d) && i < |d| && Marking(pspill[..], p, d, i, x0, y0)
    requires pn == 2 * d[i].mid < ID_MAX
    modifies pspill
    ensures Marking(pspill[..], p, d, i + 1, x, y)
  {
    x, y := x0, y0;
    ghost var now := pspill[..];
    while pn > pspill[x]
      invariant pspill[..] == now && 0 <= x < pspill.Length
      invariant Marking(now, p, d, i, x, y)
      decreases x
    {
      hide Marking;
      MarkingDown(now, p, d, i, x, y);
      x := x - 1;
    }
    hide Marking;
    if pn == pspill[x] {
      MarkingHit(now, p, d, i, x, y);
      pspill[x] := 1;
      assert pspill[..] == now[x := 1];
      x := x - 1;
      y := x;
    } else {
      MarkingMiss(now, p, d, i, x, y);
    }
  }

  /** Mark the child's dirty pages as deleted in the parent's spill list. */
  method Mark(pspill: array<int>, src: array<Id2>) returns (y: int)
    requires Valid(src) && 0 < pspill.Length && 0 < pspill[0] < pspill.Length && Spill(pspill[1..pspill[0] + 1])
    requires forall k :: 1 <= k <= src[0].mid ==> 2 * src[k].mid < ID_MAX
    modifies pspill
    ensures Marked(pspill[..], old(pspill[..pspill[0] + 1]), Elems(src), y)
  {
    ghost var d, p := Elems(src), pspill[..pspill[0] + 1];
    assert forall k :: 1 <= k <= |d| ==> src[k] == d[k - 1];
    assert p[1..] == pspill[1..pspill[0] + 1];
    var x := pspill[0];
    y := x;
    pspill[0] := ID_MAX;
    assert Marking(pspill[..], p, d, 0, x, y);
    hide Marking;
    hide Asc;
    hide Spill;
    var i := 0;
    while i < src[0].mid
      invariant 0 <= i <= |d|
      invariant Marking(pspill[..], p, d, i, x, y)
    {
      x, y := MarkOne(pspill, 2 * src[i + 1].mid, x, y, p, d, i);
      i := i + 1;
    }
    MarkingDone(pspill[..], p, d, x, y);
  }

  /** `out` is the unmarked front plus the live entries of slots y + 1 up to x - 1. */
  ghost predicate Squashed(out: seq<int>, p: seq<int>, d: seq<Id2>, y: nat, x: nat) {
    y < x <= |p| && out == p[1..y + 1] + Keep(p[y + 1..x], d)
  }

  lemma SquashStart(p: seq<int>, d: seq<Id2>, y: nat)
    requires y < |p|
    ensures Squashed(p[1..y + 1], p, d, y, y + 1)
  {
    assert p[y + 1..y + 1] == [];
  }

  lemma SquashStep(m: seq<int>, out: seq<int>, p: seq<int>, d: seq<Id2>, y: nat, x: nat)
    requires Squashed(out, p, d, y, x) && x < |p| && Marked(m, p, d, y)
    ensures m[x] % 2 != 0 ==> Squashed(out, p, d, y, x + 1)
    ensures m[x] % 2 == 0 ==> Squashed(out + [m[x]], p, d, y, x + 1)
  {
    assert p[y + 1..x + 1][..x - y - 1] == p[y + 1..x];
  }

  /** Close the gaps the marking left. */
  method Squash(pspill: array<int>, y0: int, psLen: int, ghost p: seq<int>, ghost d: seq<Id2>) returns (y: int)
    requires psLen + 1 == |p| && Marked(pspill[..], p, d, y0)
    modifies pspill
    ensures 0 <= y < pspill.Length && pspill[1..y + 1] == p[1..y0 + 1] + Keep(p[y0 + 1..], d)
  {
    y := y0;
    var x := y0 + 1;
    ghost var out := p[1..y0 + 1];
    SquashStart(p, d, y0);
    ghost var m := pspill[..];
    assert |p| <= pspill.Length && forall k :: 1 <= k <= y ==> pspill[k] == out[k - 1];
    hide Squashed;
    hide Marked;
    while x <= psLen
      invariant y0 + 1 <= x <= |p| && y == |out| < x && Squashed(out, p, d, y0, x)
      invariant forall k :: 1 <= k <= y ==> pspill[k] == out[k - 1]
      invariant forall k :: x <= k < |p| ==> pspill[k] == m[k]
    {
      SquashStep(m, out, p, d, y0, x);
      if pspill[x] % 2 == 0 {
        out := out + [pspill[x]];
        y := y + 1;
        pspill[y] := pspill[x];
      }
      x := x + 1;
    }
    SquashDone(out, p, d, y0);
  }

  lemma SquashDone(out: seq<int>, p: seq<int>, d: seq<Id2>, y: nat)
    requires Squashed(out, p, d, y, |p|)
    ensures out == p[1..y + 1] + Keep(p[y + 1..], d)
  {
    assert p[y + 1..|p|] == p[y + 1..];
  }

  lemma {:induction false} KeepUnlisted(s: seq<int>, d: seq<Id2>)
    requires forall k :: 0 <= k < |s| ==> !Listed(d, s[k])
    ensures Keep(s, []) == Keep(s, d)
  {
    if s != [] {
      KeepUnlisted(s[..|s| - 1], d);
      assert !Listed(d, s[|s| - 1]);
    }
  }

  lemma {:induction false} KeepTwice(s: seq<int>, d: seq<Id2>)
    ensures Keep(Keep(s, d), []) == Keep(s, d)
  {
    if s != [] {
      var s', e := s[..|s| - 1], s[|s| - 1];
      KeepTwice(s', d);
      if e % 2 == 0 && !Listed(d, e) {
        assert (Keep(s', d) + [e])[..|Keep(s', d)|] == Keep(s', d);
      } else {
        assert Keep(s, d) == Keep(s', d);
      }
    }
  }

  /** The parent's spill list loses exactly the child's dirty pages. */
  method DropFromSpill(pspill: array<int>, src: array<Id2>)
    requires Valid(src) && 0 < pspill.Length && 0 < pspill[0] < pspill.Length
    requires Spill(pspill[1..pspill[0] + 1])
    requires forall k :: 1 <= k <= src[0].mid ==> 2 * src[k].mid < ID_MAX
    modifies pspill
    ensures 0 <= pspill[0] < pspill.Length
    ensures Keep(pspill[1..pspill[0] + 1], []) == Keep(old(pspill[1..pspill[0] + 1]), Elems(src))
    ensures SpillPages(Keep(pspill[1..pspill[0] + 1], [])) ==
            SpillPages(old(pspill[1..pspill[0] + 1])) - Pages(Elems(src)).Keys
  {
    var psLen := pspill[0];
    ghost var p := pspill[..psLen + 1];
    assert p[1..] == pspill[1..psLen + 1];
    var y := Mark(pspill, src);
    KeepParts(pspill[..], p, Elems(src), y);
    KeepPages(p[1..], Elems(src));
    hide Keep;
    hide SpillPages;
    y := Squash(pspill, y, psLen, p, Elems(src));
    pspill[0] := y;
  }

  lemma KeepParts(now: seq<int>, p: seq<int>, d: seq<Id2>, y: int)
    requires Marked(now, p, d, y)
    ensures Keep(p[1..y + 1] + Keep(p[y + 1..], d), []) == Keep(p[1..], d)
  {
    var front, back := p[1..y + 1], p[y + 1..];
    assert p[1..] == front + back;
    KeepUnlisted(front, d);
    KeepTwice(back, d);
    KeepConcat(front, Keep(back, d), []);
    KeepConcat(front, back, d);
  }

  // ---- the child's spilled pages leave the parent's dirty list ----

  lemma AscRemove(s: seq<Id2>, y: nat)
    requires Asc(s) && y < |s|
    ensures Asc(s[..y] + s[y + 1..]) && (Positive(s) ==> Positive(s[..y] + s[y + 1..]))
  {
  }

  lemma {:induction false} PagesRemove(s: seq<Id2>, y: nat)
    requires Asc(s) && y < |s|
    ensures Pages(s[..y] + s[y + 1..]) == Pages(s) - {s[y].mid}
    decreases |s|
  {
    var s', e := s[..|s| - 1], s[|s| - 1];
    if y == |s| - 1 {
      assert s[..y] + s[y + 1..] == s';
      PagesKeys(s');
    } else {
      var t' := s'[..y] + s'[y + 1..];
      PagesRemove(s', y);
      assert s[..y] + s[y + 1..] == t' + [e];
      PagesAppend(t', e);
      RemoveUpdate(Pages(s'), s[y].mid, e.mid, e.mptr);
    }
  }

  lemma RemoveUpdate(m: map<int, int>, k: int, k': int, v: int)
    requires k != k'
    ensures (m - {k})[k' := v] == m[k' := v] - {k}
  {
  }

  /** Close the gap at slot y0. */
  method RemoveAt(dst: array<Id2>, y0: int, ghost s: seq<Id2>)
    requires |s| < dst.Length && dst[0].mid == |s| && dst[1..|s| + 1] == s && 1 <= y0 <= |s|
    modifies dst
    ensures dst[0].mid == |s| - 1 && dst[1..|s|] == s[..y0 - 1] + s[y0..]
  {
    assert forall k :: 1 <= k <= |s| ==> dst[k] == dst[1..|s| + 1][k - 1];
    var y := y0;
    while y < dst[0].mid
      invariant y0 <= y <= |s| == dst[0].mid
      invariant forall k :: 1 <= k < y0 ==> dst[k] == s[k - 1]
      invariant forall k :: y0 <= k < y ==> dst[k] == s[k]
      invariant forall k :: y <= k <= |s| ==> dst[k] == s[k - 1]
    {
      dst[y] := dst[y + 1];
      y := y + 1;
    }
    dst[0] := dst[0].(mid := dst[0].mid - 1);
  }

  /** Drop one page from a dirty list, if it is there. */
  method DropPage(dst: array<Id2>, pn: int)
    requires Valid(dst)
    modifies dst
    ensures Valid(dst) && dst[0].mid <= old(dst[0].mid)
    ensures Pages(Elems(dst)) == Pages(old(Elems(dst))) - {pn}
  {
    var y := Search(dst, pn);
    ghost var s := Elems(dst);
    hide Pages;
    if y <= dst[0].mid && dst[y].mid == pn {
      assert s[y - 1] == dst[y];
      PagesRemove(s, y - 1);
      AscRemove(s, y - 1);
      RemoveAt(dst, y, s);
    }
  }

  lemma SpillNone(s: seq<int>)
    requires s == []
    ensures SpillPages(s) == {}
  {
  }

  method DropSpilled(dst: array<Id2>, spill: array<int>)
    requires Valid(dst) && 0 < spill.Length && 0 <= spill[0] < spill.Length
    modifies dst
    ensures Valid(dst) && dst[0].mid <= old(dst[0].mid)
    ensures Pages(Elems(dst)) == Pages(old(Elems(dst))) - SpillPages(spill[1..spill[0] + 1])
  {
    hide Pages;
    hide SpillPages;
    hide Asc;
    hide Positive;
    SpillNone(spill[1..1]);
    var i := 1;
    while i <= spill[0]
      invariant 1 <= i <= spill[0] + 1
      invariant Valid(dst) && dst[0].mid <= old(dst[0].mid)
      invariant Pages(Elems(dst)) == Pages(old(Elems(dst))) - SpillPages(spill[1..i])
    {
      var pn := spill[i];
      SpillPagesAppend(spill[1..i], pn);
      assert spill[1..i + 1] == spill[1..i] + [pn];
      if pn % 2 == 0 {
        DropPage(dst, pn / 2);
      }
      i := i + 1;
    }
  }

  // ---- what readers of the page lists see ----

  datatype Place = Mapped | Spilled | Dirty(mptr: int)

  /** The lists of one transaction: spilled pages and dirty pages. */
  datatype Lists = Lists(spill: set<int>, dirty: map<int, int>) {
    ghost predicate Apart() { spill !! dirty.Keys }

    /** mdb_page_get on one transaction level, `above` being the answer of its ancestors. */
    function Look(pg: int, above: Place): Place {
      if pg in spill then Spilled
      else if pg in dirty then Dirty(dirty[pg])
      else above
    }
  }

  /** What the commit leaves in the parent, list by list. */
  function Committed(parent: Lists, child: Lists): Lists {
    Lists(parent.spill - child.dirty.Keys + child.spill, parent.dirty - child.spill + child.dirty)
  }

  /** A nested commit moves no page: for every page number the parent alone now answers
      what the child in front of the parent answered before. */
  lemma CommitKeepsPages(parent: Lists, child: Lists, pg: int, above: Place)
    requires child.Apart()
    ensures Committed(parent, child).Look(pg, above) == child.Look(pg, parent.Look(pg, above))
    ensures parent.Apart() ==> Committed(parent, child).Apart()
  {
  }

  /** The live pages of a spill list kept in an array. */
  ghost function Live(sp: array<int>): set<int>
    requires 0 < sp.Length && 0 <= sp[0] < sp.Length
    reads sp
  {
    SpillPages(Keep(sp[1..sp[0] + 1], []))
  }

  lemma LivePages(s: seq<int>)
    ensures SpillPages(Keep(s, [])) == SpillPages(s)
  {
    KeepPages(s, []);
  }

  /** The list work of the commit, in the source's order: the parent's spill list loses the
      child's dirty pages, the parent's dirty list loses the child's spilled pages, and the
      child's dirty list is merged into the parent's. */
  method CommitLists(pspill: array<int>, dst: array<Id2>, spill: array<int>, src: array<Id2>)
    requires Valid(dst) && Valid(src) && dst != src && dst[0].mid + src[0].mid < dst.Length
    requires pspill != spill && 0 < pspill.Length && 0 <= pspill[0] < pspill.Length
    requires Spill(pspill[1..pspill[0] + 1])
    requires 0 < spill.Length && 0 <= spill[0] < spill.Length
    requires forall k :: 1 <= k <= src[0].mid ==> 2 * src[k].mid < ID_MAX
    modifies pspill, dst
    ensures 0 <= pspill[0] < pspill.Length && Valid(dst)
    ensures Lists(Live(pspill) + Live(spill), Pages(Elems(dst))) ==
            Committed(Lists(old(Live(pspill)), Pages(old(Elems(dst)))), Lists(Live(spill), Pages(Elems(src))))
  {
    hide Keep, SpillPages, Pages, Valid, Elems, Spill;
    LivePages(pspill[1..pspill[0] + 1]);
    LivePages(spill[1..spill[0] + 1]);
    ghost var pl, pd, cl, cd := Live(pspill), Pages(Elems(dst)), Live(spill), Pages(Elems(src));
    if pspill[0] != 0 {
      DropFromSpill(pspill, src);
    } else {
      NothingSpilled(pspill);
    }
    assert Live(pspill) == pl - cd.Keys;
    hide Live;
    DropSpilled(dst, spill);
    assert Pages(Elems(dst)) == pd - cl;
    MergeLists(dst, src);
    assert Pages(Elems(dst)) == pd - cl + cd;
  }

  lemma NothingSpilled(sp: array<int>)
    requires 0 < sp.Length && sp[0] == 0
    ensures Live(sp) == {}
  {
    assert sp[1..1] == [];
  }
}
