/** Where mdb_page_split cuts a full page. */
module SplitPoint {

  /** The sum of the sizes of s. */
  function Sum(s: seq<int>): int {
    if s == [] then 0 else Sum(s[..|s| - 1]) + s[|s| - 1]
  }

  lemma {:induction false} SumConcat(s: seq<int>, t: seq<int>)
    ensures Sum(s + t) == Sum(s) + Sum(t)
  {
    if t == [] {
      assert s + t == s;
    } else {
      SumConcat(s, t[..|t| - 1]);
      assert (s + t)[..|s + t| - 1] == s + t[..|t| - 1];
    }
  }

  lemma SumSplit(s: seq<int>, i: int)
    requires 0 <= i <= |s|
    ensures Sum(s) == Sum(s[..i]) + Sum(s[i..])
  {
    SumConcat(s[..i], s[i..]);
    assert s == s[..i] + s[i..];
  }

  lemma {:induction false} SumAtLeast(s: seq<int>, m: int)
    requires 0 <= m && forall k :: 0 <= k < |s| ==> m <= s[k]
    ensures m * |s| <= Sum(s)
  {
    if s != [] {
      SumAtLeast(s[..|s| - 1], m);
      assert m * |s| == m * (|s| - 1) + m;
    }
  }

  lemma SumNext(s: seq<int>, i: int)
    requires 0 <= i < |s|
    ensures Sum(s[..i + 1]) == Sum(s[..i]) + s[i] && Sum(s[i..]) == s[i] + Sum(s[i + 1..])
  {
    assert s[..i + 1][..i] == s[..i];
    SumConcat([s[i]], s[i + 1..]);
    assert s[i..] == [s[i]] + s[i + 1..];
    assert Sum([s[i]]) == Sum([]) + s[i];
  }

  lemma SumHead(s: seq<int>)
    requires s != []
    ensures Sum(s) == s[0] + Sum(s[1..])
  {
    SumNext(s, 0);
    assert s[0..] == s;
  }

  /** The smallest node is a bare header, and takes a slot of the offset array. */
  const MIN_ITEM := 10

  /** The page to be cut: `all` are the sizes of its nodes and of the new one, at newindx.
      The old nodes fill at most a page; each item fills at most half of one. */
  ghost predicate Full(all: seq<int>, newindx: int, pmax: int) {
    && 3 <= |all| && 0 <= newindx < |all| && pmax < Sum(all)
    && Sum(all) - all[newindx] <= pmax
    && forall k :: 0 <= k < |all| ==> MIN_ITEM <= all[k] && 2 * all[k] <= pmax
  }

  /** The nodes move to the right page from place `split` on. On a branch page the first of
      them loses its key, leaving a bare header. */
  function RightSize(all: seq<int>, split: int, leaf: bool): int
    requires 0 <= split < |all|
  {
    Sum(all[split..]) - if leaf then 0 else all[split] - MIN_ITEM
  }

  /** The same goes for the node that leads the left page. */
  function LeftSize(all: seq<int>, split: int, leaf: bool): int
    requires 0 < split <= |all|
  {
    Sum(all[..split]) - if leaf then 0 else all[0] - MIN_ITEM
  }

  ghost predicate BothFit(all: seq<int>, split: int, leaf: bool, pmax: int) {
    0 < split < |all| && LeftSize(all, split, leaf) <= pmax && RightSize(all, split, leaf) <= pmax
  }

  /** Is the split point looked for, or simply the middle? */
  predicate Scans(all: seq<int>, newindx: int, pmax: int, keythresh: int)
    requires 0 <= newindx < |all|
  {
    |all| - 1 < keythresh || all[newindx] > pmax / 16 || newindx >= |all| - 1
  }

  function Middle(all: seq<int>): int { |all| / 2 }      // (nkeys + 1) / 2

  lemma SubSum(s: seq<int>, lo: int, hi: int)
    requires 0 <= lo <= hi <= |s| && forall k :: 0 <= k < |s| ==> 0 <= s[k]
    ensures 0 <= Sum(s[lo..hi]) <= Sum(s)
  {
    SumSplit(s, hi);
    SumSplit(s[..hi], lo);
    assert s[..hi][lo..] == s[lo..hi];
    SumAtLeast(s[..hi][..lo], 0);
    SumAtLeast(s[lo..hi], 0);
    SumAtLeast(s[hi..], 0);
  }

  lemma SumAround(s: seq<int>, i: int)
    requires 0 <= i < |s|
    ensures Sum(s) == Sum(s[..i]) + s[i] + Sum(s[i + 1..])
  {
    SumSplit(s, i);
    SumNext(s, i);
  }

  lemma Within(s: seq<int>, a: int, b: int, lo: int, hi: int)
    requires 0 <= a <= lo <= hi <= b <= |s|
    ensures s[a..b][lo - a..hi - a] == s[lo..hi]
  {
    var u, v := s[a..b][lo - a..hi - a], s[lo..hi];
    forall k | 0 <= k < hi - lo ensures u[k] == v[k] {
      assert u[k] == s[a..b][lo - a + k] == s[lo + k];
    }
    assert |u| == |v| && u == v;
  }

  lemma SubSumAt(s: seq<int>, a: int, b: int, lo: int, hi: int)
    requires 0 <= a <= lo <= hi <= b <= |s| && forall k :: 0 <= k < |s| ==> 0 <= s[k]
    ensures 0 <= Sum(s[lo..hi]) <= Sum(s[a..b])
  {
    SubSum(s[a..b], lo - a, hi - a);
    Within(s, a, b, lo, hi);
  }

  /** A part of the page without the new item fits. */
  lemma OldFits(all: seq<int>, newindx: int, pmax: int, lo: int, hi: int)
    requires Full(all, newindx, pmax) && 0 <= lo <= hi <= |all| && !(lo <= newindx < hi)
    ensures lo < hi ==> Sum(all[lo..hi]) <= pmax
  {
    SumAround(all, newindx);
    SumAtLeast(all[..newindx], 0);
    SumAtLeast(all[newindx + 1..], 0);
    assert Sum(all[..newindx]) <= pmax && Sum(all[newindx + 1..]) <= pmax;
    if newindx < lo {
      SubSumAt(all, newindx + 1, |all|, lo, hi);
      assert all[newindx + 1..] == all[newindx + 1..|all|];
      assert Sum(all[lo..hi]) <= Sum(all[newindx + 1..]);
    } else if lo < hi {
      SubSumAt(all, 0, newindx, lo, hi);
      assert all[..newindx] == all[0..newindx];
      assert Sum(all[lo..hi]) <= Sum(all[..newindx]);
    }
  }

  /** Cutting before the item that overflows the left page. */
  lemma OverflowLeft(all: seq<int>, newindx: int, leaf: bool, pmax: int, i: int)
    requires Full(all, newindx, pmax) && 0 <= i < |all| && Sum(all[..i]) <= pmax < Sum(all[..i]) + all[i]
    ensures BothFit(all, i, leaf, pmax)
  {
    SumSplit(all, i);
    assert Sum(all[..0]) == 0;
  }

  /** Cutting after the item that overflows the right page. */
  lemma OverflowRight(all: seq<int>, newindx: int, leaf: bool, pmax: int, i: int)
    requires Full(all, newindx, pmax) && 0 <= i < |all| && Sum(all[i + 1..]) <= pmax < Sum(all[i + 1..]) + all[i]
    ensures BothFit(all, i + 1, leaf, pmax)
  {
    SumSplit(all, i + 1);
    assert Sum(all[|all|..]) == 0;
  }

  /** Cutting at the end of a scan from the left that met no overflow. */
  lemma EndLeft(all: seq<int>, newindx: int, leaf: bool, pmax: int, i: int)
    requires Full(all, newindx, pmax) && 0 <= i < |all| - 1 && Sum(all[..i]) <= pmax
    requires if newindx >= |all| - 1 then i == |all| - 2
             else newindx <= Middle(all) && i == Middle(all) + if leaf then 1 else 0
    ensures BothFit(all, i, leaf, pmax)
  {
    if newindx >= |all| - 1 {
      SumNext(all, i);
      SumNext(all, i + 1);
      assert Sum(all[i + 2..]) == 0;
    } else if newindx < i {
      OldFits(all, newindx, pmax, i, |all|);
      assert all[i..|all|] == all[i..];
    } else {
      SumNext(all, i);                           // the new item leads the right page
      SumSplit(all, i);
      SumAtLeast(all[..i], MIN_ITEM);
    }
  }

  // ---- the scans ----

  /** The scan from the left, from item i to item k - 1: cut before the first item that
      overflows the left page, or before the last one. */
  function LeftScan(all: seq<int>, i: int, k: int, pmax: int): (r: int)
    requires 0 <= i < k <= |all|
    ensures i <= r < k
    decreases k - i
  {
    if i == k - 1 || Sum(all[..i + 1]) > pmax then i else LeftScan(all, i + 1, k, pmax)
  }

  /** The scan from the right, from item i down to item k + 1: cut after the first item that
      overflows the right page, or after the last one. */
  function RightScan(all: seq<int>, i: int, k: int, pmax: int): (r: int)
    requires -1 <= k < i < |all|
    ensures k + 2 <= r <= i + 1
    decreases i - k
  {
    if i == k + 1 || Sum(all[i..]) > pmax then i + 1 else RightScan(all, i - 1, k, pmax)
  }

  predicate FromTheLeft(all: seq<int>, newindx: int) { newindx <= Middle(all) || newindx >= |all| - 1 }

  /** Where the scan from the left ends. */
  function LeftEnd(all: seq<int>, newindx: int, leaf: bool): int {
    if newindx >= |all| - 1 then |all| - 1 else Middle(all) + 1 + if leaf then 1 else 0
  }

  /** The place from which nodes go to the right page. */
  function SplitIndex(all: seq<int>, newindx: int, leaf: bool, pmax: int, keythresh: int): (split: int)
    requires 0 <= newindx < |all|
  {
    if |all| < 3 || !Scans(all, newindx, pmax, keythresh) then Middle(all)
    else if FromTheLeft(all, newindx) then LeftScan(all, 0, LeftEnd(all, newindx, leaf), pmax)
    else RightScan(all, |all| - 1, Middle(all) - 1, pmax)
  }

  /** Where the scan stops, everything before it fits. */
  lemma {:induction false} LeftScanStops(all: seq<int>, i: int, k: int, pmax: int)
    requires 0 <= i < k <= |all| && Sum(all[..i]) <= pmax
    ensures var r := LeftScan(all, i, k, pmax); Sum(all[..r]) <= pmax && (r == k - 1 || Sum(all[..r + 1]) > pmax)
    decreases k - i
  {
    if !(i == k - 1 || Sum(all[..i + 1]) > pmax) { LeftScanStops(all, i + 1, k, pmax); }
  }

  lemma {:induction false} RightScanStops(all: seq<int>, i: int, k: int, pmax: int)
    requires -1 <= k < i < |all| && Sum(all[i + 1..]) <= pmax
    ensures var r := RightScan(all, i, k, pmax); Sum(all[r..]) <= pmax && (r == k + 2 || Sum(all[r - 1..]) > pmax)
    decreases i - k
  {
    if !(i == k + 1 || Sum(all[i..]) > pmax) { RightScanStops(all, i - 1, k, pmax); }
  }

  lemma LeftFits(all: seq<int>, newindx: int, leaf: bool, pmax: int)
    requires Full(all, newindx, pmax) && FromTheLeft(all, newindx)
    ensures BothFit(all, LeftScan(all, 0, LeftEnd(all, newindx, leaf), pmax), leaf, pmax)
  {
    hide Sum, LeftScan;
    var k := LeftEnd(all, newindx, leaf);
    NoItems(all);
    SumAtLeast(all, 0);
    LeftScanStops(all, 0, k, pmax);
    var r := LeftScan(all, 0, k, pmax);
    SumNext(all, r);
    assert all[..|all|] == all;
    if Sum(all[..r + 1]) > pmax {
      OverflowLeft(all, newindx, leaf, pmax, r);
    } else {
      EndLeft(all, newindx, leaf, pmax, r);
    }
  }

  lemma RightFits(all: seq<int>, newindx: int, leaf: bool, pmax: int)
    requires Full(all, newindx, pmax) && !FromTheLeft(all, newindx)
    ensures BothFit(all, RightScan(all, |all| - 1, Middle(all) - 1, pmax), leaf, pmax)
  {
    hide Sum, RightScan;
    var k := Middle(all) - 1;
    NoItems(all);
    RightScanStops(all, |all| - 1, k, pmax);
    var r := RightScan(all, |all| - 1, k, pmax);
    SumNext(all, r - 1);
    if Sum(all[r - 1..]) > pmax {
      OverflowRight(all, newindx, leaf, pmax, r - 1);
    } else {
      OldFits(all, newindx, pmax, 0, r);
      assert all[0..r] == all[..r];
    }
  }

  lemma NoItems(all: seq<int>)
    ensures Sum(all[..0]) == 0 == Sum(all[|all|..])
  {
  }

  /** Whenever the split point is looked for, both pages fit. */
  lemma SplitFits(all: seq<int>, newindx: int, leaf: bool, pmax: int, keythresh: int)
    requires Full(all, newindx, pmax)
    ensures var split := SplitIndex(all, newindx, leaf, pmax, keythresh);
            && 0 < split < |all|
            && (Scans(all, newindx, pmax, keythresh) ==> BothFit(all, split, leaf, pmax))
            && (!Scans(all, newindx, pmax, keythresh) ==> split == Middle(all))
  {
    hide Sum;
    if Scans(all, newindx, pmax, keythresh) {
      if FromTheLeft(all, newindx) {
        LeftFits(all, newindx, leaf, pmax);
      } else {
        RightFits(all, newindx, leaf, pmax);
      }
    }
  }

  /** The longest separator, with its node and its slot. */
  const MAX_SEP := 522

  /** A branch page leaves two children or more on either side. */
  lemma TwoEach(all: seq<int>, newindx: int, pmax: int, keythresh: int)
    requires Full(all, newindx, pmax) && all[0] == MIN_ITEM && MIN_ITEM + 2 * MAX_SEP <= pmax
    requires forall k :: 0 <= k < |all| ==> all[k] <= MAX_SEP
    ensures 2 <= SplitIndex(all, newindx, false, pmax, keythresh) <= |all| - 2
  {
    hide Sum, LeftScan, RightScan;
    var n := |all|;
    NoItems(all);
    SumNext(all, 0);
    SumNext(all, 1);
    SumNext(all, 2);
    SumNext(all, n - 1);
    SumNext(all, n - 2);
    assert all[..n] == all;
    if Scans(all, newindx, pmax, keythresh) {
      if FromTheLeft(all, newindx) {
        LeftScanStops(all, 0, LeftEnd(all, newindx, false), pmax);
      } else {
        RightScanStops(all, n - 1, Middle(all) - 1, pmax);
      }
    }
  }

  /** The loop from the left. */
  method ScanLeft(all: seq<int>, newindx: int, leaf: bool, pmax: int) returns (split: int)
    requires 3 <= |all| && 0 <= newindx < |all| && FromTheLeft(all, newindx)
    ensures split == LeftScan(all, 0, LeftEnd(all, newindx, leaf), pmax)
  {
    var nkeys := |all| - 1;
    var k := if newindx >= nkeys then nkeys else Middle(all) + 1 + if leaf then 1 else 0;
    var i, psize := 0, 0;
    while true
      invariant 0 <= i < k <= |all| && psize == Sum(all[..i])
      invariant LeftScan(all, 0, k, pmax) == LeftScan(all, i, k, pmax)
      decreases k - i
    {
      SumNext(all, i);
      psize := psize + all[i];
      if psize > pmax || i == k - 1 { break; }
      i := i + 1;
    }
    split := i;
  }

  /** The loop from the right. */
  method ScanRight(all: seq<int>, newindx: int, pmax: int) returns (split: int)
    requires 3 <= |all| && !FromTheLeft(all, newindx)
    ensures split == RightScan(all, |all| - 1, Middle(all) - 1, pmax)
  {
    var i, k, psize := |all| - 1, Middle(all) - 1, 0;
    assert all[i + 1..] == [];
    while true
      invariant k < i < |all| && psize == Sum(all[i + 1..])
      invariant RightScan(all, |all| - 1, k, pmax) == RightScan(all, i, k, pmax)
      decreases i
    {
      SumNext(all, i);
      psize := psize + all[i];
      if psize > pmax || i == k + 1 { break; }
      i := i - 1;
    }
    split := i + 1;
  }

  /** The split point of mdb_page_split. Whenever it is looked for, both pages fit. */
  method FindSplit(all: seq<int>, newindx: int, leaf: bool, pmax: int, keythresh: int) returns (split: int)
    requires Full(all, newindx, pmax)
    ensures 0 < split < |all| && split == SplitIndex(all, newindx, leaf, pmax, keythresh)
    ensures if |all| - 1 < keythresh || all[newindx] > pmax / 16 || newindx == |all| - 1
            then BothFit(all, split, leaf, pmax) else split == |all| / 2
  {
    SplitFits(all, newindx, leaf, pmax, keythresh);
    var nkeys, nsize := |all| - 1, all[newindx];
    split := (nkeys + 1) / 2;
    if nkeys < keythresh || nsize > pmax / 16 || newindx >= nkeys {
      if newindx <= split || newindx >= nkeys {
        split := ScanLeft(all, newindx, leaf, pmax);
      } else {
        split := ScanRight(all, newindx, pmax);
      }
    }
  }

  // ---- when nobody looks ----

  /** The items on the side of `split` that the new one goes to, without it. */
  function Neighbours(all: seq<int>, newindx: int, split: int): seq<int>
    requires 0 <= newindx < |all| && 0 <= split <= |all|
  {
    if newindx < split then all[..newindx] + all[newindx + 1..split] else all[split..newindx] + all[newindx + 1..]
  }

  /** There is room for the new item beside its neighbours in the middle, the key that leads
      their branch page not counted. */
  predicate MiddleRoom(all: seq<int>, newindx: int, leaf: bool, pmax: int)
    requires 0 <= newindx < |all|
  {
    var m := Middle(all);
    var lead := if leaf then 0 else all[if newindx < m then 0 else m] - MIN_ITEM;
    Sum(Neighbours(all, newindx, m)) + all[newindx] - lead <= pmax
  }

  /** The half without the new item always fits. So, cut in the middle, both halves fit iff
      the new item fits beside its neighbours. */
  lemma MiddleFits(all: seq<int>, newindx: int, leaf: bool, pmax: int)
    requires Full(all, newindx, pmax)
    ensures BothFit(all, Middle(all), leaf, pmax) <==> MiddleRoom(all, newindx, leaf, pmax)
  {
    var m := Middle(all);
    if newindx < m {
      OldFits(all, newindx, pmax, m, |all|);
      assert all[m..|all|] == all[m..];
    } else {
      OldFits(all, newindx, pmax, 0, m);
      assert all[0..m] == all[..m];
    }
    NeighbourSum(all, newindx, m);
  }

  /** So the split of a full page succeeds iff its point is looked for, or there is room in the
      middle. */
  lemma SplitFitsIff(all: seq<int>, newindx: int, leaf: bool, pmax: int, keythresh: int)
    requires Full(all, newindx, pmax)
    ensures 0 <= newindx < |all|
    ensures BothFit(all, SplitIndex(all, newindx, leaf, pmax, keythresh), leaf, pmax) <==>
            || |all| - 1 < keythresh || all[newindx] > pmax / 16 || newindx == |all| - 1
            || MiddleRoom(all, newindx, leaf, pmax)
  {
    hide Full, Sum, BothFit, MiddleRoom;
    FullSize(all, newindx, pmax);
    SplitFits(all, newindx, leaf, pmax, keythresh);
    MiddleFits(all, newindx, leaf, pmax);
  }

  lemma FullSize(all: seq<int>, newindx: int, pmax: int)
    requires Full(all, newindx, pmax)
    ensures 3 <= |all| && 0 <= newindx < |all|
  {
  }

  lemma NeighbourSum(all: seq<int>, newindx: int, m: int)
    requires 0 <= newindx < |all| && 0 <= m <= |all|
    ensures Sum(Neighbours(all, newindx, m)) + all[newindx] == if newindx < m then Sum(all[..m]) else Sum(all[m..])
  {
    if newindx < m {
      SumAround(all[..m], newindx);
      SumConcat(all[..newindx], all[newindx + 1..m]);
      assert all[..m][..newindx] == all[..newindx] && all[..m][newindx + 1..] == all[newindx + 1..m];
    } else {
      SumAround(all[m..], newindx - m);
      SumConcat(all[m..newindx], all[newindx + 1..]);
      assert all[m..][..newindx - m] == all[m..newindx] && all[m..][newindx - m + 1..] == all[newindx + 1..];
    }
  }

  lemma {:induction false} SumRepeat(n: nat, x: int)
    ensures Sum(seq(n, _ => x)) == n * x
  {
    if n > 0 {
      SumRepeat(n - 1, x);
      assert seq(n, _ => x)[..n - 1] == seq(n - 1, _ => x);
      assert n * x == (n - 1) * x + x;
    }
  }

  /** And it may not. A 4096-byte page of 32 leaf nodes, the lower ones large, the others
      small: a new small item at the front is not looked at, and the left half overflows. */
  lemma MiddleOverflows()
    ensures var large, small := seq(15, _ => 258), seq(17, _ => 12);
            var all := [254] + large + small;
            var pmax, keythresh := 4096 - 16, 4096 / 128;
            Full(all, 0, pmax) && SplitIndex(all, 0, true, pmax, keythresh) == 16 && !BothFit(all, 16, true, pmax)
  {
    var large, small := seq(15, _ => 258), seq(17, _ => 12);
    var all := [254] + large + small;
    SumRepeat(15, 258);
    SumRepeat(17, 12);
    SumConcat([254], large);
    SumConcat([254] + large, small);
    assert Sum([254]) == Sum([]) + 254;
    assert all[..16] == [254] + large;
  }
}
