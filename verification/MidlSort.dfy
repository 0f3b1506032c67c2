/** mdb_midl_sort: quicksort with an explicit 64-entry stack, insertion sort below SMALL. */
module MidlSort {
  import opened Midl

  const SMALL := 8
  /** sizeof(int) * CHAR_BIT * 2 */
  const STACK := 64
  /** Longest list whose index sums still fit a 32-bit int. */
  const COUNT_MAX := 0x3FFF_FFFF

  /** A range of slots lo..hi still to be sorted. */
  datatype Seg = Seg(lo: int, hi: int) {
    function Size(): int { hi - lo + 1 }
  }

  /** `t` is `s` with slots lo..hi permuted. */
  ghost predicate SegPerm(s: seq<Id>, t: seq<Id>, lo: int, hi: int) {
    && 0 <= lo <= hi + 1 <= |s| == |t|
    && s[..lo] == t[..lo] && s[hi + 1..] == t[hi + 1..]
    && multiset(s[lo..hi + 1]) == multiset(t[lo..hi + 1])
  }

  ghost predicate SortedIn(s: seq<Id>, lo: int, hi: int) {
    forall p, q :: 0 <= lo <= p < q <= hi && q < |s| ==> s[p] >= s[q]
  }

  lemma SegPermSwap(s: seq<Id>, i: int, j: int, lo: int, hi: int)
    requires 0 <= lo <= i <= hi < |s| && lo <= j <= hi
    ensures SegPerm(s, s[i := s[j]][j := s[i]], lo, hi)
  {
    var t := s[i := s[j]][j := s[i]];
    var u, v := s[lo..hi + 1], t[lo..hi + 1];
    assert v == u[i - lo := u[j - lo]][j - lo := u[i - lo]];
  }

  lemma SegPermTrans(s: seq<Id>, t: seq<Id>, u: seq<Id>, lo: int, hi: int)
    requires SegPerm(s, t, lo, hi) && SegPerm(t, u, lo, hi)
    ensures SegPerm(s, u, lo, hi)
  {
  }

  lemma SegPermWiden(s: seq<Id>, t: seq<Id>, lo: int, hi: int, lo': int, hi': int)
    requires SegPerm(s, t, lo, hi) && 0 <= lo' <= lo && hi <= hi' < |s|
    ensures SegPerm(s, t, lo', hi')
  {
    assert s[lo'..hi' + 1] == s[..lo][lo'..] + s[lo..hi + 1] + s[hi + 1..][..hi' - hi];
    assert t[lo'..hi' + 1] == t[..lo][lo'..] + t[lo..hi + 1] + t[hi + 1..][..hi' - hi];
    assert s[..lo'] == s[..lo][..lo'] && t[..lo'] == t[..lo][..lo'];
    assert s[hi' + 1..] == s[hi + 1..][hi' - hi..] && t[hi' + 1..] == t[hi + 1..][hi' - hi..];
  }

  /** Each id in a permuted segment was somewhere in that segment before. */
  lemma SegPermSource(s: seq<Id>, t: seq<Id>, lo: int, hi: int, q: int) returns (p: int)
    requires SegPerm(s, t, lo, hi) && lo <= q <= hi
    ensures lo <= p <= hi && s[p] == t[q]
  {
    assert t[q] == t[lo..hi + 1][q - lo];
    assert t[q] in multiset(t[lo..hi + 1]);
    assert t[q] in multiset(s[lo..hi + 1]);
    var k :| 0 <= k < hi + 1 - lo && s[lo..hi + 1][k] == t[q];
    p := lo + k;
  }

  lemma SegPermOutside(s: seq<Id>, t: seq<Id>, lo: int, hi: int, q: int)
    requires SegPerm(s, t, lo, hi) && 0 <= q < |s| && (q < lo || hi < q)
    ensures s[q] == t[q]
  {
    if q < lo {
      assert s[..lo][q] == t[..lo][q];
    } else {
      assert s[hi + 1..][q - hi - 1] == t[hi + 1..][q - hi - 1];
    }
  }

  method Swap(ids: array<Id>, i: int, j: int, ghost lo: int, ghost hi: int)
    requires 0 <= lo <= i <= hi < ids.Length && lo <= j <= hi
    modifies ids
    ensures forall p :: 0 <= p < ids.Length ==> ids[p] == old(ids[if p == i then j else if p == j then i else p])
    ensures SegPerm(old(ids[..]), ids[..], lo, hi)
  {
    SegPermSwap(ids[..], i, j, lo, hi);
    var tmp := ids[i];
    ids[i] := ids[j];
    ids[j] := tmp;
    assert ids[..] == old(ids[..])[i := old(ids[j])][j := old(ids[i])];
  }

  /** `now` is `was` with the id of slot j moved down to slot i + 1. */
  ghost predicate Moved(was: seq<Id>, now: seq<Id>, i: int, j: int) {
    && -1 <= i < j < |was| == |now|
    && (forall p :: 0 <= p <= i ==> now[p] == was[p])
    && now[i + 1] == was[j]
    && (forall p :: i + 1 < p <= j ==> now[p] == was[p - 1])
    && (forall p :: j < p < |was| ==> now[p] == was[p])
  }

  lemma MovedPerm(was: seq<Id>, now: seq<Id>, l: int, i: int, j: int)
    requires Moved(was, now, i, j) && 0 <= l <= i + 1
    ensures SegPerm(was, now, l, j)
  {
    var x := was[j];
    assert was[l..j + 1] == was[l..i + 1] + was[i + 1..j] + [x];
    assert now[l..j + 1] == was[l..i + 1] + ([x] + was[i + 1..j]);
    Rotated(was[l..i + 1], was[i + 1..j], x);
  }

  lemma Rotated(front: seq<Id>, mid: seq<Id>, x: Id)
    ensures multiset(front + ([x] + mid)) == multiset(front + mid + [x])
  {
    assert multiset([x] + mid) == multiset(mid) + multiset{x};
  }

  /** The inner insertion loop. Its only guard is slot 1, yet it never leaves the segment:
      everything before the segment is at least as large as the id being inserted. */
  method InsertOne(ids: array<Id>, l: int, j: int)
    requires 1 <= l < j < ids.Length
    requires SortedIn(ids[..], l, j - 1)
    requires forall p :: 1 <= p < l ==> ids[p] >= ids[j]
    modifies ids
    ensures SortedIn(ids[..], l, j)
    ensures SegPerm(old(ids[..]), ids[..], l, j)
  {
    var a := ids[j];
    var i := j - 1;
    ghost var was := ids[..];
    while i >= 1
      invariant l - 1 <= i < j
      invariant forall p :: 0 <= p <= i || j < p < ids.Length ==> ids[p] == was[p]
      invariant forall p :: i + 1 < p <= j ==> ids[p] == was[p - 1] && ids[p] < a
      decreases i
    {
      if ids[i] >= a { break; }
      ids[i + 1] := ids[i];
      i := i - 1;
    }
    ids[i + 1] := a;
    hide SegPerm;
    MovedPerm(was, ids[..], l, i, j);
    InsertOneSorted(was, ids[..], l, i, j);
  }

  lemma InsertOneSorted(was: seq<Id>, now: seq<Id>, l: int, i: int, j: int)
    requires 1 <= l <= i + 1 && Moved(was, now, i, j) && SortedIn(was, l, j - 1)
    requires i < l || was[i] >= was[j]
    requires forall p :: i + 1 < p <= j ==> now[p] < was[j]
    ensures SortedIn(now, l, j)
  {
  }

  /** Insertion sort of one small segment. */
  method InsertionSort(ids: array<Id>, l: int, ir: int)
    requires 1 <= l <= ir + 1 <= ids.Length
    requires forall p, q :: 1 <= p < l <= q <= ir ==> ids[p] >= ids[q]
    modifies ids
    ensures SegPerm(old(ids[..]), ids[..], l, ir) && SortedIn(ids[..], l, ir)
  {
    ghost var was := ids[..];
    var j := l + 1;
    while j <= ir
      invariant l + 1 <= j <= ir + 1 || ir < j == l + 1
      invariant SegPerm(was, ids[..], l, ir)
      invariant SortedIn(ids[..], l, j - 1)
    {
      ghost var now := ids[..];
      forall p | 1 <= p < l ensures now[p] >= now[j] {
        SegPermOutside(was, now, l, ir, p);
        var q := SegPermSource(was, now, l, ir, j);
      }
      InsertOne(ids, l, j);
      SegPermWiden(now, ids[..], l, j, l, ir);
      SegPermTrans(was, now, ids[..], l, ir);
      j := j + 1;
    }
  }

  /** Where a partition of l..ir leaves the ids: slots before j are at least the pivot,
      slots from i on are at most it, and everything between equals it. */
  ghost predicate Split(s: seq<Id>, l: int, ir: int, i: int, j: int) {
    && 0 <= l < j < i <= ir < |s|
    && (forall p :: l <= p < j ==> s[p] >= s[j])
    && (forall p :: j <= p < i ==> s[p] == s[j])
    && (forall p :: i <= p <= ir ==> s[p] <= s[j])
  }

  /** Median of left, centre and right goes to l + 1, larger ids to l, smaller to ir. */
  method MedianOfThree(ids: array<Id>, l: int, ir: int)
    requires 0 <= l && l + SMALL <= ir < ids.Length
    modifies ids
    ensures SegPerm(old(ids[..]), ids[..], l, ir)
    ensures ids[l] >= ids[l + 1] >= ids[ir]
  {
    ghost var was := ids[..];
    var k := (l + ir) / 2;
    Swap(ids, k, l + 1, l, ir);
    ghost var s1 := ids[..];
    if ids[l] < ids[ir] {
      Swap(ids, l, ir, l, ir);
      SegPermTrans(was, s1, ids[..], l, ir);
    }
    ghost var s2 := ids[..];
    assert ids[l] >= ids[ir];
    if ids[l + 1] < ids[ir] {
      Swap(ids, l + 1, ir, l, ir);
      SegPermTrans(was, s2, ids[..], l, ir);
    }
    ghost var s3 := ids[..];
    assert ids[l] >= ids[ir] && ids[l + 1] >= ids[ir];
    if ids[l] < ids[l + 1] {
      Swap(ids, l, l + 1, l, ir);
      SegPermTrans(was, s3, ids[..], l, ir);
    }
  }

  /** The two unguarded scans: the ids put at the ends by the median step stop them. */
  method Scan(ids: array<Id>, l: int, ir: int, i0: int, j0: int) returns (i: int, j: int)
    requires 0 <= l < i0 <= j0 <= ir < ids.Length && (i0 == j0 ==> l + 1 < i0 < ir)
    requires forall p :: l < p <= i0 ==> ids[p] >= ids[l + 1]
    requires forall p :: j0 <= p <= ir ==> ids[p] <= ids[l + 1]
    ensures i0 < i <= ir && l < j < j0 && (i0 < j0 ==> i <= j0 && i0 <= j)
    ensures ids[i] <= ids[l + 1] && ids[j] >= ids[l + 1]
    ensures forall p :: i0 < p < i ==> ids[p] > ids[l + 1]
    ensures forall p :: j < p < j0 ==> ids[p] < ids[l + 1]
  {
    var a := ids[l + 1];
    i := i0 + 1;
    while ids[i] > a
      invariant i0 < i <= ir && (i0 < j0 ==> i <= j0)
      invariant forall p :: i0 < p < i ==> ids[p] > a
      decreases ir - i
    {
      i := i + 1;
    }
    j := j0 - 1;
    while ids[j] < a
      invariant l < j < j0 && (i0 < j0 ==> i0 <= j)
      invariant forall p :: j < p < j0 ==> ids[p] < a
      decreases j
    {
      j := j - 1;
    }
  }

  /** The pivot changes places with the last id of the left part. */
  method PivotHome(ids: array<Id>, l: int, ir: int, ghost i: int, j: int)
    requires 0 <= l < j < i <= ir < ids.Length
    requires forall p :: l <= p < i ==> ids[p] >= ids[l + 1]
    requires forall p :: j < p <= ir ==> ids[p] <= ids[l + 1]
    modifies ids
    ensures SegPerm(old(ids[..]), ids[..], l, ir) && Split(ids[..], l, ir, i, j)
  {
    SegPermSwap(ids[..], l + 1, j, l, ir);
    var a := ids[l + 1];
    ids[l + 1] := ids[j];
    ids[j] := a;
    assert ids[..] == old(ids[..])[l + 1 := old(ids[j])][j := old(ids[l + 1])];
  }

  /** The exchange loop around the scans. */
  method Exchange(ids: array<Id>, l: int, ir: int) returns (i: int, j: int)
    requires 1 <= l && l + SMALL <= ir < ids.Length && ids[l] >= ids[l + 1] >= ids[ir]
    modifies ids
    ensures SegPerm(old(ids[..]), ids[..], l, ir)
    ensures l < j < i <= ir
    ensures forall p :: l <= p < i ==> ids[p] >= ids[l + 1]
    ensures forall p :: j < p <= ir ==> ids[p] <= ids[l + 1]
  {
    ghost var was := ids[..];
    ghost var a := ids[l + 1];
    i, j := l + 1, ir;
    assert SegPerm(was, ids[..], l, ir);
    hide SegPerm;
    while true
      invariant l < i <= j <= ir && (i == j ==> l + 1 < i < ir) && ids[l + 1] == a
      invariant SegPerm(was, ids[..], l, ir)
      invariant forall p :: l <= p <= i ==> ids[p] >= a
      invariant forall p :: j <= p <= ir ==> ids[p] <= a
      decreases j - i
    {
      i, j := Scan(ids, l, ir, i, j);
      if j < i { return; }
      ghost var now := ids[..];
      Swap(ids, i, j, l, ir);
      SegPermTrans(was, now, ids[..], l, ir);
    }
  }

  method Partition(ids: array<Id>, l: int, ir: int) returns (i: int, j: int)
    requires 1 <= l && l + SMALL <= ir < ids.Length
    modifies ids
    ensures SegPerm(old(ids[..]), ids[..], l, ir)
    ensures Split(ids[..], l, ir, i, j)
  {
    hide SegPerm;
    ghost var s0 := ids[..];
    MedianOfThree(ids, l, ir);
    ghost var s1 := ids[..];
    i, j := Exchange(ids, l, ir);
    ghost var s2 := ids[..];
    PivotHome(ids, l, ir, i, j);
    SegPermTrans(s0, s1, s2, l, ir);
    SegPermTrans(s0, s2, ids[..], l, ir);
  }

  // ---- the explicit stack ----

  ghost predicate WellPlaced(segs: seq<Seg>, n: int) {
    && (forall t :: 0 <= t < |segs| ==> 1 <= segs[t].lo <= segs[t].hi + 1 && segs[t].hi <= n)
    && (forall t, u :: 0 <= t < u < |segs| ==> segs[t].hi < segs[u].lo || segs[u].hi < segs[t].lo)
  }

  ghost predicate Together(segs: seq<Seg>, p: int, q: int) {
    exists t :: 0 <= t < |segs| && segs[t].lo <= p <= segs[t].hi && segs[t].lo <= q <= segs[t].hi
  }

  /** Only ids that share a pending segment may still be out of order. */
  ghost predicate Ordered(s: seq<Id>, n: int, segs: seq<Seg>) {
    0 <= n < |s| && forall p, q :: 1 <= p < q <= n && s[p] < s[q] ==> Together(segs, p, q)
  }

  function Pow2(t: nat): (r: int)
    ensures 0 < r
  {
    if t == 0 then 1 else 2 * Pow2(t - 1)
  }

  lemma {:induction false} Pow2Mono(t: nat, u: nat)
    requires t <= u
    ensures Pow2(t) <= Pow2(u)
  {
    if t < u { Pow2Mono(t, u - 1); }
  }

  /** The segment at stack depth t holds at most n / 2^t ids: only larger halves are pushed. */
  ghost predicate Halved(segs: seq<Seg>, n: int) {
    forall t :: 0 <= t < |segs| ==> segs[t].Size() * Pow2(t) <= n
  }

  ghost function Total(segs: seq<Seg>): int {
    if segs == [] then 0 else Total(segs[..|segs| - 1]) + segs[|segs| - 1].Size()
  }

  lemma Pow2At27()
    ensures Pow2(27) == 0x800_0000
  {
    assert Pow2(9) == 512;
    assert Pow2(14) == 32 * Pow2(9);
    assert Pow2(18) == 16 * Pow2(14);
    assert Pow2(23) == 32 * Pow2(18);
  }

  lemma TimesMono(x: int, y: int, z: nat)
    requires x <= y
    ensures x * z <= y * z
  {
  }

  /** A segment long enough to be partitioned sits low enough for one more push. */
  lemma DepthBound(size: int, t: nat, n: int)
    requires size * Pow2(t) <= n <= COUNT_MAX && SMALL < size
    ensures t <= 26
  {
    if 27 <= t {
      Pow2At27();
      Pow2Mono(27, t);
      TimesMono(SMALL + 1, size, Pow2(t));
    }
  }

  lemma TogetherPrefix(segs: seq<Seg>, p: int, q: int)
    requires |segs| > 0 && Together(segs, p, q)
    requires var g := segs[|segs| - 1]; !(g.lo <= p <= g.hi) || !(g.lo <= q <= g.hi)
    ensures Together(segs[..|segs| - 1], p, q)
  {
    var t :| 0 <= t < |segs| && segs[t].lo <= p <= segs[t].hi && segs[t].lo <= q <= segs[t].hi;
    assert segs[..|segs| - 1][t] == segs[t];
  }

  /** A permutation of the current segment disturbs no order relation outside it. */
  lemma OrderedOutside(s: seq<Id>, s': seq<Id>, n: int, segs: seq<Seg>, p: int, q: int)
    requires |segs| > 0 && WellPlaced(segs, n) && Ordered(s, n, segs)
    requires var g := segs[|segs| - 1]; SegPerm(s, s', g.lo, g.hi)
    requires 1 <= p < q <= n && s'[p] < s'[q]
    requires var g := segs[|segs| - 1]; !(g.lo <= p <= g.hi && g.lo <= q <= g.hi)
    ensures Together(segs[..|segs| - 1], p, q)
  {
    var g := segs[|segs| - 1];
    var p', q' := p, q;
    if g.lo <= p <= g.hi {
      p' := SegPermSource(s, s', g.lo, g.hi, p);
    } else {
      SegPermOutside(s, s', g.lo, g.hi, p);
    }
    if g.lo <= q <= g.hi {
      q' := SegPermSource(s, s', g.lo, g.hi, q);
    } else {
      SegPermOutside(s, s', g.lo, g.hi, q);
    }
    assert p' < q' && s[p'] < s[q'];
    assert Together(segs, p', q');
    TogetherPrefix(segs, p', q');
  }

  lemma AfterInsertion(s: seq<Id>, s': seq<Id>, n: int, segs: seq<Seg>)
    requires |segs| > 0 && WellPlaced(segs, n) && Ordered(s, n, segs)
    requires var g := segs[|segs| - 1]; SegPerm(s, s', g.lo, g.hi) && SortedIn(s', g.lo, g.hi)
    ensures Ordered(s', n, segs[..|segs| - 1])
  {
    forall p, q | 1 <= p < q <= n && s'[p] < s'[q]
      ensures Together(segs[..|segs| - 1], p, q)
    {
      OrderedOutside(s, s', n, segs, p, q);
    }
  }

  /** The segments after a partition: the two parts, in either order, replace the last one. */
  ghost predicate Halves(segs: seq<Seg>, i: int, j: int, segs': seq<Seg>) {
    && |segs| > 0 && 0 < j
    && var g, rest := segs[|segs| - 1], segs[..|segs| - 1];
       || segs' == rest + [Seg(g.lo, j - 1), Seg(i, g.hi)]
       || segs' == rest + [Seg(i, g.hi), Seg(g.lo, j - 1)]
  }

  lemma AfterPartition(s: seq<Id>, s': seq<Id>, n: int, segs: seq<Seg>, i: int, j: int, segs': seq<Seg>)
    requires |segs| > 0 && WellPlaced(segs, n) && Ordered(s, n, segs)
    requires var g := segs[|segs| - 1]; SegPerm(s, s', g.lo, g.hi) && Split(s', g.lo, g.hi, i, j)
    requires Halves(segs, i, j, segs')
    ensures Ordered(s', n, segs')
  {
    var g, rest, k := segs[|segs| - 1], segs[..|segs| - 1], |segs| - 1;
    forall p, q | 1 <= p < q <= n && s'[p] < s'[q]
      ensures Together(segs', p, q)
    {
      if g.lo <= p <= g.hi && g.lo <= q <= g.hi {
        SplitOrder(s', g.lo, g.hi, i, j, p, q);
        var t := if (q < j) == (segs'[k] == Seg(g.lo, j - 1)) then k else k + 1;
        assert segs'[t].lo <= p <= segs'[t].hi && segs'[t].lo <= q <= segs'[t].hi;
      } else {
        OrderedOutside(s, s', n, segs, p, q);
        var t :| 0 <= t < |rest| && rest[t].lo <= p <= rest[t].hi && rest[t].lo <= q <= rest[t].hi;
        assert segs'[t] == rest[t];
      }
    }
  }

  lemma SplitOrder(s: seq<Id>, l: int, ir: int, i: int, j: int, p: int, q: int)
    requires Split(s, l, ir, i, j) && l <= p < q <= ir && s[p] < s[q]
    ensures q < j || i <= p
  {
  }

  lemma SplitFacts(s: seq<Id>, l: int, ir: int, i: int, j: int)
    requires Split(s, l, ir, i, j)
    ensures l < j < i <= ir
  {
  }

  lemma ReplaceLast(rest: seq<Seg>, g: Seg, a: Seg, b: Seg, n: int)
    requires WellPlaced(rest + [g], n)
    requires g.lo <= a.lo <= a.hi <= g.hi && g.lo <= b.lo <= b.hi <= g.hi && (a.hi < b.lo || b.hi < a.lo)
    ensures WellPlaced(rest + [a, b], n)
  {
    var old', k, now := rest + [g], |rest|, rest + [a, b];
    assert old'[k] == g && forall t :: 0 <= t < k ==> now[t] == old'[t];
    assert forall t :: 0 <= t < k ==> old'[t].hi < g.lo || g.hi < old'[t].lo;
  }

  lemma HalvesPlaced(n: int, segs: seq<Seg>, i: int, j: int, segs': seq<Seg>)
    requires |segs| > 0 && WellPlaced(segs, n) && Halves(segs, i, j, segs')
    requires var g := segs[|segs| - 1]; g.lo < j < i <= g.hi
    ensures WellPlaced(segs', n) && Total(segs') < Total(segs)
  {
    var k := |segs| - 1;
    var g, rest, a, b := segs[k], segs[..k], segs'[k], segs'[k + 1];
    assert segs == rest + [g] && segs' == rest + [a, b];
    hide WellPlaced;
    ReplaceLast(rest, g, a, b, n);
    assert rest + [a, b] == rest + [a] + [b];
    TotalAppend(rest, g);
    TotalAppend(rest, a);
    TotalAppend(rest + [a], b);
  }

  lemma TotalAppend(segs: seq<Seg>, g: Seg)
    ensures Total(segs + [g]) == Total(segs) + g.Size()
  {
    assert (segs + [g])[..|segs|] == segs;
  }

  lemma HalfFits(size: int, half: int, k: nat, n: int)
    requires size * Pow2(k) <= n && 2 * half <= size
    ensures half * Pow2(k + 1) <= n
  {
    TimesMono(2 * half, size, Pow2(k));
    assert half * Pow2(k + 1) == 2 * half * Pow2(k);
  }

  lemma HalvesHalved(n: int, segs: seq<Seg>, i: int, j: int, segs': seq<Seg>)
    requires |segs| > 0 && Halved(segs, n) && Halves(segs, i, j, segs')
    requires var g := segs[|segs| - 1]; g.lo < j < i <= g.hi
    requires segs'[|segs|].Size() <= segs'[|segs| - 1].Size()
    ensures Halved(segs', n)
  {
    var k := |segs| - 1;
    var g, a, b := segs[k], segs'[k], segs'[k + 1];
    TimesMono(a.Size(), g.Size(), Pow2(k));
    HalfFits(g.Size(), b.Size(), k, n);
    forall t | 0 <= t < |segs'| ensures segs'[t].Size() * Pow2(t) <= n {
      if t < k { assert segs'[t] == segs[t]; }
    }
  }

  lemma {:induction false} TotalBound(segs: seq<Seg>, n: int)
    requires WellPlaced(segs, n)
    ensures 0 <= Total(segs)
  {
    if segs != [] {
      var rest := segs[..|segs| - 1];
      assert forall t :: 0 <= t < |rest| ==> rest[t] == segs[t];
      TotalBound(rest, n);
    }
  }

  /** The list as a whole is descending once no segment is pending. */
  lemma OrderedDone(s: seq<Id>, n: int)
    requires Ordered(s, n, [])
    ensures Desc(s[1..n + 1])
  {
    var u := s[1..n + 1];
    forall i, j | 0 <= i < j < |u| ensures u[i] >= u[j] {
      assert u[i] == s[i + 1] && u[j] == s[j + 1];
      assert s[i + 1] >= s[j + 1] || Together([], i + 1, j + 1);
    }
  }

  /** What the loop of the sort keeps: `segs` lists the pending segments, current one last. */
  ghost predicate Pending(was: seq<Id>, s: seq<Id>, n: int, segs: seq<Seg>) {
    && 0 < |segs| && SegPerm(was, s, 1, n)
    && WellPlaced(segs, n) && Ordered(s, n, segs) && Halved(segs, n)
  }

  lemma PendingStart(s: seq<Id>, n: int)
    requires 0 <= n < |s|
    ensures Pending(s, s, n, [Seg(1, n)])
  {
    var segs := [Seg(1, n)];
    forall p, q | 1 <= p < q <= n ensures Together(segs, p, q) {
      assert segs[0].lo <= p <= segs[0].hi && segs[0].lo <= q <= segs[0].hi;
    }
  }

  lemma PendingFacts(was: seq<Id>, s: seq<Id>, n: int, segs: seq<Seg>)
    requires Pending(was, s, n, segs)
    ensures forall t :: 0 <= t < |segs| ==> 1 <= segs[t].lo <= segs[t].hi + 1 <= n + 1
    ensures n < |s| == |was| && s[0] == was[0]
    ensures var g := segs[|segs| - 1]; forall p, q :: 1 <= p < g.lo <= q <= g.hi ==> s[p] >= s[q]
  {
    assert s[0] == s[..1][0] && was[0] == was[..1][0];
    var g := segs[|segs| - 1];
    forall p, q | 1 <= p < g.lo <= q <= g.hi ensures s[p] >= s[q] {
      assert s[p] >= s[q] || Together(segs, p, q);
    }
  }

  lemma PendingSorted(was: seq<Id>, s: seq<Id>, s': seq<Id>, n: int, segs: seq<Seg>)
    requires Pending(was, s, n, segs)
    requires var g := segs[|segs| - 1]; SegPerm(s, s', g.lo, g.hi) && SortedIn(s', g.lo, g.hi)
    ensures |segs| > 1 ==> Pending(was, s', n, segs[..|segs| - 1])
    ensures |segs| == 1 ==> Desc(s'[1..n + 1]) && SegPerm(was, s', 1, n) && s'[0] == was[0]
    ensures 0 <= Total(segs[..|segs| - 1]) <= Total(segs)
  {
    var g, rest := segs[|segs| - 1], segs[..|segs| - 1];
    SegPermWiden(s, s', g.lo, g.hi, 1, n);
    SegPermTrans(was, s, s', 1, n);
    AfterInsertion(s, s', n, segs);
    assert forall t :: 0 <= t < |rest| ==> rest[t] == segs[t];
    TotalBound(rest, n);
    if |segs| == 1 {
      OrderedDone(s', n);
      assert s'[..1][0] == was[..1][0];
    }
  }

  lemma PendingSplit(was: seq<Id>, s: seq<Id>, s': seq<Id>, n: int, segs: seq<Seg>, i: int, j: int, segs': seq<Seg>)
    requires Pending(was, s, n, segs) && n <= COUNT_MAX
    requires var g := segs[|segs| - 1]; SMALL < g.Size() && SegPerm(s, s', g.lo, g.hi) && Split(s', g.lo, g.hi, i, j)
    requires Halves(segs, i, j, segs') && segs'[|segs|].Size() <= segs'[|segs| - 1].Size()
    ensures Pending(was, s', n, segs')
    ensures |segs| <= 27 && 0 <= Total(segs') < Total(segs)
  {
    var g := segs[|segs| - 1];
    SegPermWiden(s, s', g.lo, g.hi, 1, n);
    SegPermTrans(was, s, s', 1, n);
    AfterPartition(s, s', n, segs, i, j, segs');
    HalvesPlaced(n, segs, i, j, segs');
    HalvesHalved(n, segs, i, j, segs');
    DepthBound(g.Size(), |segs| - 1, n);
    TotalBound(segs', n);
  }

  /** The pending segments but the last, as the stack array holds them. */
  ghost predicate OnStack(istack: seq<int>, segs: seq<Seg>) {
    && |istack| == STACK && 0 < |segs| <= 28
    && forall t :: 0 <= t < |segs| - 1 ==> istack[2 * t + 1] == segs[t].lo && istack[2 * t + 2] == segs[t].hi
  }

  lemma OnStackPush(istack: seq<int>, segs: seq<Seg>, g: Seg, h: Seg)
    requires OnStack(istack, segs) && |segs| <= 27
    ensures OnStack(istack[2 * |segs| := g.hi][2 * |segs| - 1 := g.lo], segs[..|segs| - 1] + [g, h])
  {
  }

  lemma OnStackPop(istack: seq<int>, segs: seq<Seg>)
    requires OnStack(istack, segs) && 1 < |segs|
    ensures var g := segs[|segs| - 2];
            |istack| == STACK && istack[2 * |segs| - 2] == g.hi && istack[2 * |segs| - 3] == g.lo
    ensures |segs| <= 28 && OnStack(istack, segs[..|segs| - 1])
  {
  }

  method Push(istack: array<int>, jstack: int, g: Seg, ghost h: Seg, ghost segs: seq<Seg>)
    requires OnStack(istack[..], segs) && jstack == 2 * |segs| <= 54
    modifies istack
    ensures OnStack(istack[..], segs[..|segs| - 1] + [g, h])
  {
    ghost var st := istack[..];
    istack[jstack] := g.hi;
    istack[jstack - 1] := g.lo;
    assert istack[..] == st[jstack := g.hi][jstack - 1 := g.lo];
    OnStackPush(st, segs, g, h);
  }

  /** The quicksort branch: partition, push the larger part, go on with the smaller. */
  method SplitAndPush(ids: array<Id>, istack: array<int>, l0: int, ir0: int, jstack: int, ghost n: int,
                      ghost was: seq<Id>, ghost segs: seq<Seg>)
    returns (l: int, ir: int, ghost segs': seq<Seg>)
    requires 0 < |segs| && segs[|segs| - 1] == Seg(l0, ir0) && SMALL <= ir0 - l0 && n <= COUNT_MAX
    requires jstack == 2 * |segs| && istack != ids
    requires Pending(was, ids[..], n, segs) && OnStack(istack[..], segs)
    modifies ids, istack
    ensures |segs'| == |segs| + 1 && segs'[|segs|] == Seg(l, ir)
    ensures Pending(was, ids[..], n, segs') && OnStack(istack[..], segs')
    ensures 0 <= Total(segs') < Total(segs)
  {
    PendingFacts(was, ids[..], n, segs);
    ghost var s, rest := ids[..], segs[..|segs| - 1];
    hide Pending;
    hide SegPerm;
    hide Split;
    hide OnStack;
    hide Total;
    var i, j := Partition(ids, l0, ir0);
    SplitFacts(ids[..], l0, ir0, i, j);
    var g, h := Seg(i, ir0), Seg(l0, j - 1);
    if ir0 - i + 1 >= j - l0 {
      segs' := rest + [g, h];
      PendingSplit(was, s, ids[..], n, segs, i, j, segs');
      Push(istack, jstack, g, h, segs);
      l, ir := l0, j - 1;
    } else {
      segs' := rest + [h, g];
      PendingSplit(was, s, ids[..], n, segs, i, j, segs');
      Push(istack, jstack, h, g, segs);
      l, ir := i, ir0;
    }
  }

  /** The insertion branch: the current segment is done. */
  method SortSmall(ids: array<Id>, l: int, ir: int, ghost n: int, ghost was: seq<Id>, ghost segs: seq<Seg>)
    requires Pending(was, ids[..], n, segs) && segs[|segs| - 1] == Seg(l, ir)
    modifies ids
    ensures |segs| > 1 ==> Pending(was, ids[..], n, segs[..|segs| - 1])
    ensures |segs| == 1 ==> Desc(ids[1..n + 1]) && SegPerm(was, ids[..], 1, n) && ids[0] == was[0]
    ensures 0 <= Total(segs[..|segs| - 1]) <= Total(segs)
  {
    ghost var s := ids[..];
    PendingFacts(was, s, n, segs);
    hide Pending;
    InsertionSort(ids, l, ir);
    PendingSorted(was, s, ids[..], n, segs);
  }

  /** mdb_midl_sort: every list becomes descending, and no slot outside the 64-entry stack
      is ever used. */
  method Sort(ids: array<Id>)
    requires ValidIdl(ids) && ids[0] <= COUNT_MAX
    modifies ids
    ensures ids[0] == old(ids[0]) && SegPerm(old(ids[..]), ids[..], 1, ids[0])
    ensures Desc(ids[1..ids[0] + 1])
  {
    var istack := new int[STACK];
    var n := ids[0];
    var l, ir, jstack := 1, n, 0;
    ghost var was := ids[..];
    ghost var segs := [Seg(1, n)];
    PendingStart(was, n);
    assert OnStack(istack[..], segs);
    hide OnStack;
    hide Pending;
    hide SegPerm;
    hide Total;
    while true
      invariant 0 < |segs| && segs[|segs| - 1] == Seg(l, ir) && jstack == 2 * (|segs| - 1)
      invariant OnStack(istack[..], segs) && Pending(was, ids[..], n, segs)
      decreases Total(segs), |segs|
    {
      if ir - l < SMALL {
        SortSmall(ids, l, ir, n, was, segs);
        if jstack == 0 { return; }
        OnStackPop(istack[..], segs);
        ir := istack[jstack];
        jstack := jstack - 1;
        l := istack[jstack];
        jstack := jstack - 1;
        segs := segs[..|segs| - 1];
      } else {
        jstack := jstack + 2;
        l, ir, segs := SplitAndPush(ids, istack, l, ir, jstack, n, was, segs);
      }
    }
  }
}
